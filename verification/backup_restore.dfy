// restoreBackup: capture every target, write them all, and on failure undo
// what was written in reverse order.

module BackupRestore {
  import opened FilePaths
  import opened FileTree
  import opened ArchiveNames

  datatype ArchiveFile = ArchiveFile(name: string, content: string, mode: nat, isDir: bool, isSymlink: bool)

  datatype Target = Target(root: Path, path: Path, file: ArchiveFile)

  datatype RollbackEntry = RollbackEntry(root: Path, path: Path, existed: bool, content: string, mode: nat,
                                         createdDirs: seq<Path>)

  // Rejected: refused before anything was written.
  datatype Outcome = Rejected | Restored | RolledBack | RollbackFailed

  // ---- paths a restore may touch ----

  // Real directories from the root down to p, and no symbolic link at p.
  ghost predicate PlainWay(t: Tree, root: Path, p: Path) {
    && (forall i :: |root| <= i < |p| && p[..i] in t ==> t[p[..i]].Dir?)
    && (p in t ==> !t[p].Symlink?)
  }

  // What validateRestoreTargetPath accepts.
  ghost predicate Reachable(t: Tree, root: Path, p: Path) {
    root <= p && (p == root ==> root == []) && root in t && PlainWay(t, root, p)
  }

  lemma OnlyDirsOnTheWay(t: Tree, root: Path, p: Path, q: Path)
    requires Closed(t) && Reachable(t, root, p) && Above(q, p) && q in t
    ensures t[q].Dir?
  {
    assert q == p[..|q|];
    if |q| < |root| {
      assert root == p[..|root|] && q == root[..|q|];
      AncestorsAreDirs(t, q, root);
    }
  }

  lemma ReachableWayIsClear(t: Tree, root: Path, p: Path)
    requires Closed(t) && Reachable(t, root, p) && p != []
    ensures WayIsClear(t, Parent(p))
  {
    forall i | 0 <= i < |p| && Parent(p)[..i] in t ensures t[Parent(p)[..i]].Dir? {
      assert Parent(p)[..i] == p[..i];
      OnlyDirsOnTheWay(t, root, p, p[..i]);
    }
  }

  // The loop of rejectSymlinkComponents: from the root down to p or the first
  // missing component.
  method RejectSymlinkComponents(disk: Disk, root: Path, p: Path) returns (err: Option<Errno>)
    requires Closed(disk.tree) && root <= p
    modifies disk`faults
    ensures err == None && root in disk.tree ==> PlainWay(disk.tree, root, p)
    ensures old(disk.faults) <= disk.faults
    ensures disk.faults == old(disk.faults) && root in disk.tree && PlainWay(disk.tree, root, p) ==> err == None
  {
    assert p == p[..|p|] && root == p[..|root|];
    var i := |root|;
    while i <= |p|
      invariant |root| <= i <= |p| + 1
      invariant disk.tree == old(disk.tree) && disk.faults == old(disk.faults)
      invariant forall k :: |root| <= k < i ==>
        p[..k] in disk.tree && (k < i - 1 ==> disk.tree[p[..k]].Dir?) && !disk.tree[p[..k]].Symlink?
    {
      if i > |root| { assert Parent(p[..i]) == p[..i - 1]; }
      var e, node := disk.Lstat(p[..i]);
      if e == Some(NotExist) {
        MissingBelow(disk.tree, p, i);
        return None;
      }
      if e != None { return e; }
      if node.Symlink? { return Some(Unsafe); }
      i := i + 1;
    }
    err := None;
  }

  // nearestExistingParent, starting at p itself.
  method NearestExisting(disk: Disk, p: Path) returns (err: Option<Errno>, found: Path)
    requires Closed(disk.tree)
    modifies disk`faults
    ensures err == None ==> found <= p && found in disk.tree && (forall k :: |found| < k <= |p| ==> p[..k] !in disk.tree)
    ensures old(disk.faults) <= disk.faults
    ensures disk.faults == old(disk.faults) && WayIsClear(disk.tree, p) ==> err == None
  {
    assert p == p[..|p|];
    var i := |p|;
    found := [];
    while true
      invariant 0 <= i <= |p|
      invariant disk.tree == old(disk.tree) && disk.faults == old(disk.faults)
      invariant forall k :: i < k <= |p| ==> p[..k] !in disk.tree
      decreases i
    {
      if p[..i] !in disk.tree && WayIsClear(disk.tree, p) { ClearWayMissing(disk.tree, p, i); }
      var e, _ := disk.Lstat(p[..i]);
      if e == None { return None, p[..i]; }
      if e != Some(NotExist) { return e, []; }
      i := i - 1;
    }
  }

  lemma ClearWayMissing(t: Tree, p: Path, i: nat)
    requires Closed(t) && WayIsClear(t, p) && i <= |p| && p[..i] !in t
    ensures MissReason(t, p[..i]) == NotExist
  {
    assert forall k :: 0 <= k <= i ==> p[..i][..k] == p[..k];
    MissReasonBelowDir(t, [], p[..i]);
  }

  // validateRestoreTargetPath.  Links are rejected before EvalSymlinks runs, so
  // evaluating the root and the existing parent leaves both as they are.
  method ValidateRestoreTargetPath(disk: Disk, root: Path, p: Path) returns (err: Option<Errno>)
    requires Closed(disk.tree) && CleanPath(p)
    modifies disk`faults
    ensures err == None ==> Reachable(disk.tree, root, p)
    ensures old(disk.faults) <= disk.faults
    ensures disk.faults == old(disk.faults) && Reachable(disk.tree, root, p) ==> err == None
  {
    InsideRootIsPrefix(root, p);
    if !PathIsInsideRoot(root, p) { return Some(Unsafe); }
    err := RejectSymlinkComponents(disk, root, p);
    if err != None { return; }
    var e, _ := disk.Lstat(root);
    if e != None { return e; }
    var parent := if p == [] then [] else Parent(p);
    if p != [] && Reachable(disk.tree, root, p) { ReachableWayIsClear(disk.tree, root, p); }
    var e', found := NearestExisting(disk, parent);
    if e' != None { return e'; }
    InsideRootIsPrefix(root, found);
    if Above(root, p) {
      assert root == p[..|root|] == parent[..|root|];
      assert |root| <= |found|;
      assert found == parent[..|found|];
    }
    if !PathIsInsideRoot(root, found) { return Some(Unsafe); }
  }

  lemma MissingBelow(t: Tree, p: Path, i: nat)
    requires Closed(t) && i <= |p| && p[..i] !in t
    ensures forall k :: i <= k <= |p| ==> p[..k] !in t
  {
    forall k | i < k <= |p| ensures p[..k] !in t {
      if p[..k] in t {
        assert p[..i] == p[..k][..i];
        AncestorsAreDirs(t, p[..i], p[..k]);
      }
    }
  }

  // ---- capture ----

  // The missing ancestors of p, deepest first.
  function MissingAncestors(t: Tree, p: Path): seq<Path>
    decreases |p|
  {
    if p == [] || Parent(p) in t then [] else [Parent(p)] + MissingAncestors(t, Parent(p))
  }

  lemma {:induction false} MissingAncestorsShape(t: Tree, p: Path)
    requires [] in t && p != []
    ensures var s := MissingAncestors(t, p);
      && |s| < |p|
      && (forall j :: 0 <= j < |s| ==> s[j] == p[..|p| - 1 - j] && s[j] !in t)
      && p[..|p| - 1 - |s|] in t
    decreases |p|
  {
    if Parent(p) !in t {
      var s := MissingAncestors(t, p);
      MissingAncestorsShape(t, Parent(p));
      forall j | 0 <= j < |s| ensures s[j] == p[..|p| - 1 - j] && s[j] !in t {
        if j > 0 { assert s[j] == MissingAncestors(t, Parent(p))[j - 1] == Parent(p)[..|p| - 1 - j]; }
      }
      assert Parent(p)[..|p| - 1 - |s|] == p[..|p| - 1 - |s|];
    }
  }

  // missingParentDirs finds exactly the ancestors that do not exist.
  lemma MissingAncestorsExact(t: Tree, p: Path, d: Path)
    requires Closed(t) && p != []
    ensures d in MissingAncestors(t, p) <==> Above(d, p) && d !in t
  {
    var s := MissingAncestors(t, p);
    MissingAncestorsShape(t, p);
    if Above(d, p) && d !in t {
      var top := p[..|p| - 1 - |s|];
      assert d == p[..|d|];
      if |d| < |top| { assert d == top[..|d|]; AncestorsAreDirs(t, d, top); }
      assert s[|p| - 1 - |d|] == d;
    }
  }

  method MissingParentDirs(disk: Disk, root: Path, p: Path) returns (err: Option<Errno>, dirs: seq<Path>)
    requires Closed(disk.tree) && CleanPath(p) && Reachable(disk.tree, root, p) && p != []
    modifies disk`faults
    ensures err == None ==> dirs == MissingAncestors(disk.tree, p)
    ensures old(disk.faults) <= disk.faults
    ensures disk.faults == old(disk.faults) ==> err == None
  {
    var current := Parent(p);
    dirs := [];
    ReachableWayIsClear(disk.tree, root, p);
    InsideRootIsPrefix(root, current);
    while PathIsInsideRoot(root, current) && current != root
      invariant disk.tree == old(disk.tree) && disk.faults == old(disk.faults)
      invariant current <= Parent(p) && CleanPath(current) && (root <= current || root == p)
      invariant PathIsInsideRoot(root, current) <==> root <= current
      invariant dirs + (if current in disk.tree then [] else [current] + MissingAncestors(disk.tree, current))
        == MissingAncestors(disk.tree, p)
      decreases |current|
    {
      assert current == Parent(p)[..|current|];
      if current !in disk.tree { ClearWayMissing(disk.tree, Parent(p), |current|); }
      var e, node := disk.Lstat(current);
      if e == None {
        if !node.Dir? { return Some(Unsafe), []; }
        return None, dirs;
      }
      if e != Some(NotExist) { return e, []; }
      dirs := dirs + [current];
      current := Parent(current);
      InsideRootIsPrefix(root, current);
    }
    err := None;
  }

  // What a rollback entry knows about the tree it was taken from.
  ghost predicate Captured(t: Tree, e: RollbackEntry) {
    && e.path != [] && CleanPath(e.path) && Reachable(t, e.root, e.path)
    && if e.existed then e.path in t && t[e.path] == File(e.content, e.mode)
       else e.path !in t && e.createdDirs == MissingAncestors(t, e.path)
  }

  // captureRestoreRollbackEntry
  method Capture(disk: Disk, root: Path, p: Path) returns (err: Option<Errno>, entry: RollbackEntry)
    requires Closed(disk.tree) && CleanPath(p)
    modifies disk`faults
    ensures err == None ==> Captured(disk.tree, entry) && entry.path == p && entry.root == root
    ensures err == None ==> (p in disk.tree ==> disk.tree[p].File?)
    ensures old(disk.faults) <= disk.faults
    ensures disk.faults == old(disk.faults) && Reachable(disk.tree, root, p) && (p in disk.tree ==> disk.tree[p].File?)
      ==> err == None
  {
    entry := RollbackEntry(root, p, false, "", 0, []);
    err := ValidateRestoreTargetPath(disk, root, p);
    if err != None { return; }
    if p !in disk.tree {
      assert p == p[..|p|];
      ReachableWayIsClear(disk.tree, root, p);
      MissReasonBelowDir(disk.tree, root, p);
    }
    var e, node := disk.Lstat(p);
    if e == Some(NotExist) {
      var e', dirs := MissingParentDirs(disk, root, p);
      return e', RollbackEntry(root, p, false, "", 0, dirs);
    }
    if e != None { return e, entry; }
    if !node.File? { return Some(Unsafe), entry; }
    var e', content := disk.ReadFile(p);
    return e', RollbackEntry(root, p, true, content, node.mode, []);
  }

  // ---- writing one target ----

  // The permission bits a restored file gets.
  function ModeOr644(mode: nat): nat {
    if mode == 0 then 0x1A4 else mode
  }

  function Restorable(f: ArchiveFile): Node {
    File(f.content, ModeOr644(f.mode))
  }

  // restoreZipFile
  method RestoreZipFile(disk: Disk, file: ArchiveFile, root: Path, p: Path) returns (err: Option<Errno>)
    requires Closed(disk.tree) && CleanPath(p) && p != []
    modifies disk
    ensures Closed(disk.tree) && OnlyWrote(old(disk.tree), disk.tree, p, Restorable(file))
    ensures err == None ==> p in disk.tree && disk.tree[p] == Restorable(file)
    ensures old(disk.faults) <= disk.faults
    ensures (disk.faults == old(disk.faults) && !file.isSymlink && old(Reachable(disk.tree, root, p))
             && (p in old(disk.tree) ==> !old(disk.tree)[p].Dir?))
      ==> err == None
  {
    if file.isSymlink { return Some(Unsafe); }
    err := ValidateRestoreTargetPath(disk, root, p);
    if err != None { return; }
    ReachableWayIsClear(disk.tree, root, p);
    err := disk.MkdirAll(Parent(p));
    if err != None { return; }
    StillReachable(old(disk.tree), disk.tree, root, p);
    err := ValidateRestoreTargetPath(disk, root, p);
    if err != None { return; }
    var bad := disk.Fault();  // opening or reading the archive member
    if bad { return Some(IoFailure); }
    err := ValidateRestoreTargetPath(disk, root, p);
    if err != None { return; }
    ReachableWayIsClear(disk.tree, root, p);
    err := disk.AtomicWriteFile(p, file.content, ModeOr644(file.mode));
  }

  lemma StillReachable(t: Tree, t': Tree, root: Path, p: Path)
    requires Reachable(t, root, p) && p != [] && OnlyDirsAdded(t, t', Parent(p))
    ensures Reachable(t', root, p) && (p in t' ==> p in t)
  {
    forall i | |root| <= i < |p| && p[..i] in t' ensures t'[p[..i]].Dir? {
      if p[..i] in t { assert t'[p[..i]] == t[p[..i]]; }
    }
  }

  // ---- the state between capture and the end of a restore or a rollback ----

  ghost predicate IsTarget(entries: seq<RollbackEntry>, k: nat, q: Path) {
    exists i :: 0 <= i < k && i < |entries| && entries[i].path == q
  }

  ghost predicate IsAboveTarget(entries: seq<RollbackEntry>, k: nat, q: Path) {
    exists i :: 0 <= i < k && i < |entries| && Above(q, entries[i].path)
  }

  // Relative to the captured tree t0, only the first k targets may differ: their
  // files, and new directories above them.
  ghost predicate Between(t0: Tree, t: Tree, entries: seq<RollbackEntry>, k: nat) {
    && Closed(t)
    && (forall q :: q in t0 ==> q in t && (t[q] == t0[q] || (IsTarget(entries, k, q) && t0[q].File? && t[q].File?)))
    && (forall q :: q in t && q !in t0 ==>
          (t[q].Dir? && IsAboveTarget(entries, k, q)) || (t[q].File? && IsTarget(entries, k, q)))
  }

  lemma NothingWritten(t0: Tree, t: Tree, entries: seq<RollbackEntry>)
    requires Between(t0, t, entries, 0)
    ensures t == t0
  {
  }

  lemma MoreTargets(t0: Tree, t: Tree, entries: seq<RollbackEntry>, k: nat, n: nat)
    requires Between(t0, t, entries, k) && k <= n
    ensures Between(t0, t, entries, n)
  {
    assert forall q :: IsTarget(entries, k, q) ==> IsTarget(entries, n, q);
    assert forall q :: IsAboveTarget(entries, k, q) ==> IsAboveTarget(entries, n, q);
  }

  // Writing target k, complete or not, stays within the first k+1 targets.
  lemma WriteStep(t0: Tree, t: Tree, t': Tree, entries: seq<RollbackEntry>, k: nat, file: Node)
    requires k < |entries| && Between(t0, t, entries, k) && Captured(t0, entries[k]) && file.File?
    requires Closed(t') && OnlyWrote(t, t', entries[k].path, file)
    ensures Between(t0, t', entries, k + 1)
  {
    MoreTargets(t0, t, entries, k, k + 1);
    var p := entries[k].path;
    assert IsTarget(entries, k + 1, p);
    forall q | q in t' && q !in t0
      ensures (t'[q].Dir? && IsAboveTarget(entries, k + 1, q)) || (t'[q].File? && IsTarget(entries, k + 1, q))
    {
      if q !in t && q != p { assert Above(q, entries[k].path); }
    }
  }

  ghost predicate PrefixFree(entries: seq<RollbackEntry>) {
    forall i, j :: 0 <= i < |entries| && 0 <= j < |entries| ==> !Above(entries[i].path, entries[j].path)
  }

  ghost predicate DistinctPaths(entries: seq<RollbackEntry>) {
    forall i, j :: 0 <= i < j < |entries| ==> entries[i].path != entries[j].path
  }

  // Neither target i < m is above target m, nor the other way round.
  ghost predicate NoClash(entries: seq<RollbackEntry>, m: nat)
    requires m < |entries|
  {
    forall i :: 0 <= i < m ==> !Above(entries[i].path, entries[m].path) && !Above(entries[m].path, entries[i].path)
  }

  // Without a fault, only a clash with an earlier target can stop a write.
  lemma BlockedMeansClash(t0: Tree, t: Tree, entries: seq<RollbackEntry>, m: nat)
    requires m < |entries| && Between(t0, t, entries, m) && Captured(t0, entries[m]) && Closed(t0)
    requires var e := entries[m]; !Reachable(t, e.root, e.path) || (e.path in t && t[e.path].Dir?)
    ensures !NoClash(entries, m)
  {
    var e := entries[m];
    if e.path in t && !t[e.path].File? {
      assert e.path !in t0;
      assert IsAboveTarget(entries, m, e.path);
    } else {
      var i :| |e.root| <= i < |e.path| && e.path[..i] in t && !t[e.path[..i]].Dir?;
      var q := e.path[..i];
      if q in t0 { OnlyDirsOnTheWay(t0, e.root, e.path, q); }
      assert q !in t0;
      assert IsTarget(entries, m, q);
    }
  }

  // ---- rollback ----

  // Undoing one existing target: its file is as captured again.
  lemma RewriteStep(t0: Tree, t: Tree, t': Tree, entries: seq<RollbackEntry>, k: nat)
    requires k < |entries| && Between(t0, t, entries, k + 1) && Closed(t0)
    requires Captured(t0, entries[k]) && entries[k].existed
    requires var e := entries[k];
      && Closed(t') && OnlyWrote(t, t', e.path, File(e.content, e.mode))
      && e.path in t' && t'[e.path] == File(e.content, e.mode)
    ensures Between(t0, t', entries, k)
  {
    var p := entries[k].path;
    forall q | q in t0
      ensures q in t' && (t'[q] == t0[q] || (IsTarget(entries, k, q) && t0[q].File? && t'[q].File?))
    {
      if q != p { assert IsTarget(entries, k + 1, q) ==> IsTarget(entries, k, q); }
    }
    forall q | q in t' && q !in t0
      ensures (t'[q].Dir? && IsAboveTarget(entries, k, q)) || (t'[q].File? && IsTarget(entries, k, q))
    {
      if Above(q, p) { AncestorsAreDirs(t0, q, p); }
      assert q in t;
      assert IsTarget(entries, k + 1, q) ==> IsTarget(entries, k, q);
      assert IsAboveTarget(entries, k + 1, q) ==> IsAboveTarget(entries, k, q);
    }
  }

  // While the directories above a removed target are taken away, deepest first:
  // what is new and at least `depth` long belongs to the targets before k.
  ghost predicate UndoneDownTo(t0: Tree, t: Tree, entries: seq<RollbackEntry>, k: nat, depth: nat) {
    && Between(t0, t, entries, k + 1)
    && forall q :: q in t && q !in t0 && |q| >= depth ==>
         (t[q].Dir? && IsAboveTarget(entries, k, q)) || (t[q].File? && IsTarget(entries, k, q))
  }

  lemma FileGone(t0: Tree, t: Tree, entries: seq<RollbackEntry>, k: nat)
    requires k < |entries| && Between(t0, t, entries, k + 1) && entries[k].path !in t
    ensures UndoneDownTo(t0, t, entries, k, |entries[k].path|)
  {
    forall q | q in t && q !in t0 && |q| >= |entries[k].path|
      ensures (t[q].Dir? && IsAboveTarget(entries, k, q)) || (t[q].File? && IsTarget(entries, k, q))
    {
      assert IsTarget(entries, k + 1, q) ==> IsTarget(entries, k, q);
      assert IsAboveTarget(entries, k + 1, q) ==> IsAboveTarget(entries, k, q);
    }
  }

  lemma RemoveNew(t0: Tree, t: Tree, entries: seq<RollbackEntry>, k: nat, d: Path)
    requires Between(t0, t, entries, k) && d in t && d !in t0 && d != [] && !HasChild(t, d)
    ensures Between(t0, t - {d}, entries, k)
  {
    RemoveLeafKeepsClosed(t, d);
  }

  // One more directory attempted: gone, never there, or kept alive by an earlier target.
  lemma DirectoryTried(t0: Tree, t: Tree, entries: seq<RollbackEntry>, k: nat, d: Path)
    requires k < |entries| && UndoneDownTo(t0, t, entries, k, |d| + 1) && Closed(t0)
    requires Above(d, entries[k].path) && d !in t0 && (d in t ==> HasChild(t, d))
    ensures UndoneDownTo(t0, t, entries, k, |d|)
  {
    forall q | q in t && q !in t0 && |q| >= |d|
      ensures (t[q].Dir? && IsAboveTarget(entries, k, q)) || (t[q].File? && IsTarget(entries, k, q))
    {
      if q == d {
        var c :| c in t && c != [] && Parent(c) == d;
        assert c !in t0;
        assert IsTarget(entries, k, c) || IsAboveTarget(entries, k, c);
        var i :| 0 <= i < k && i < |entries| && c <= entries[i].path;
        assert d == c[..|d|] == entries[i].path[..|d|];
        assert Above(d, entries[i].path);
      } else if |q| == |d| {
        assert IsTarget(entries, k + 1, q) ==> IsTarget(entries, k, q);
        assert IsAboveTarget(entries, k + 1, q) ==> IsAboveTarget(entries, k, q);
      }
    }
  }

  // All created directories attempted: target k has left nothing behind.
  lemma AllTried(t0: Tree, t: Tree, entries: seq<RollbackEntry>, k: nat, depth: nat)
    requires k < |entries| && UndoneDownTo(t0, t, entries, k, depth) && Closed(t0)
    requires !entries[k].existed && entries[k].path !in t && entries[k].path !in t0
    requires 0 < depth <= |entries[k].path| && entries[k].path[..depth - 1] in t0
    ensures Between(t0, t, entries, k)
  {
    var p := entries[k].path;
    forall q | q in t0
      ensures q in t && (t[q] == t0[q] || (IsTarget(entries, k, q) && t0[q].File? && t[q].File?))
    {
      assert IsTarget(entries, k + 1, q) ==> IsTarget(entries, k, q);
    }
    forall q | q in t && q !in t0
      ensures (t[q].Dir? && IsAboveTarget(entries, k, q)) || (t[q].File? && IsTarget(entries, k, q))
    {
      if Above(q, p) && |q| < depth {
        assert q == p[..depth - 1][..|q|];
        if q != p[..depth - 1] { AncestorsAreDirs(t0, q, p[..depth - 1]); }
      }
      assert IsTarget(entries, k + 1, q) && q != p ==> IsTarget(entries, k, q);
      assert IsAboveTarget(entries, k + 1, q) && !Above(q, p) ==> IsAboveTarget(entries, k, q);
    }
  }

  // Only p and what is above it may have been touched.
  ghost predicate OnlyTouchedUpTo(t: Tree, t': Tree, p: Path) {
    forall q :: q in t && !(q <= p) ==> q in t' && t'[q] == t[q]
  }

  // One os.Remove of a created directory: one that is gone already, was never
  // made or is still in use is no error.
  method TryRemoveDir(disk: Disk, ghost t0: Tree, ghost entries: seq<RollbackEntry>, ghost k: nat, d: Path)
    returns (err: Option<Errno>)
    requires k < |entries| && Closed(t0) && UndoneDownTo(t0, disk.tree, entries, k, |d| + 1)
    requires Above(d, entries[k].path) && d !in t0 && d != [] && entries[k].path !in disk.tree
    modifies disk
    ensures Closed(disk.tree) && (disk.tree == old(disk.tree) || disk.tree == old(disk.tree) - {d})
    ensures err == None ==> UndoneDownTo(t0, disk.tree, entries, k, |d|)
    ensures old(disk.faults) <= disk.faults
    ensures disk.faults == old(disk.faults) && old(WayIsClear(disk.tree, Parent(entries[k].path))) ==> err == None
  {
    ghost var way := Parent(entries[k].path);
    assert d == entries[k].path[..|d|] == way[..|d|];
    if WayIsClear(disk.tree, way) && d !in disk.tree { ClearWayMissing(disk.tree, way, |d|); }
    err := disk.Remove(d);
    if err == None { RemoveNew(t0, old(disk.tree), entries, k + 1, d); }
    if err == Some(NotExist) || err == Some(NotEmpty) { err := None; }
    if err == None { DirectoryTried(t0, disk.tree, entries, k, d); }
  }

  // The loop over CreatedDirs.
  method RemoveCreatedDirs(disk: Disk, ghost t0: Tree, entries: seq<RollbackEntry>, k: nat) returns (err: Option<Errno>)
    requires k < |entries| && Closed(t0) && Captured(t0, entries[k]) && !entries[k].existed
    requires Between(t0, disk.tree, entries, k + 1) && entries[k].path !in disk.tree
    modifies disk
    ensures Closed(disk.tree) && OnlyTouchedUpTo(old(disk.tree), disk.tree, entries[k].path)
    ensures err == None ==> Between(t0, disk.tree, entries, k)
    ensures old(disk.faults) <= disk.faults
    ensures disk.faults == old(disk.faults) && old(WayIsClear(disk.tree, Parent(entries[k].path))) ==>
      err == None && WayIsClear(disk.tree, Parent(entries[k].path))
  {
    var p, dirs := entries[k].path, entries[k].createdDirs;
    MissingAncestorsShape(t0, p);
    FileGone(t0, disk.tree, entries, k);
    ghost var clear := WayIsClear(disk.tree, Parent(p));
    var j := 0;
    while j < |dirs|
      invariant j <= |dirs|
      invariant UndoneDownTo(t0, disk.tree, entries, k, |p| - j) && p !in disk.tree
      invariant OnlyTouchedUpTo(old(disk.tree), disk.tree, p)
      invariant old(disk.faults) <= disk.faults
      invariant clear ==> WayIsClear(disk.tree, Parent(p))
    {
      assert dirs[j] == p[..|p| - 1 - j] && |dirs[j]| == |p| - 1 - j;
      assert dirs[j] <= p;
      err := TryRemoveDir(disk, t0, entries, k, dirs[j]);
      if err != None { return; }
      j := j + 1;
    }
    AllTried(t0, disk.tree, entries, k, |p| - j);
    err := None;
  }

  // Undoing a target that was not there: remove the file, then the directories made
  // for it.
  method UndoNewFile(disk: Disk, ghost t0: Tree, entries: seq<RollbackEntry>, k: nat) returns (err: Option<Errno>)
    requires k < |entries| && Closed(t0) && Captured(t0, entries[k]) && !entries[k].existed
    requires Between(t0, disk.tree, entries, k + 1) && WayIsClear(disk.tree, Parent(entries[k].path))
    modifies disk
    ensures Closed(disk.tree) && OnlyTouchedUpTo(old(disk.tree), disk.tree, entries[k].path)
    ensures err == None ==> Between(t0, disk.tree, entries, k)
    ensures err == None ==> !HasChild(old(disk.tree), entries[k].path)
    ensures old(disk.faults) <= disk.faults
    ensures disk.faults == old(disk.faults) && !HasChild(old(disk.tree), entries[k].path) ==> err == None
  {
    var e := entries[k];
    ghost var before := disk.tree;
    err := disk.Remove(e.path);
    if err != None && err != Some(NotExist) {
      if disk.faults == old(disk.faults) && e.path !in disk.tree { MissingUnderClearWay(disk.tree, e.path); }
      return;
    }
    if err == None { RemoveNew(t0, before, entries, k + 1, e.path); }
    assert e.path !in disk.tree && WayIsClear(disk.tree, Parent(e.path));
    err := RemoveCreatedDirs(disk, t0, entries, k);
    if err != None { return; }
    ghost var way := Parent(e.path);
    if WayIsClear(disk.tree, way) && way !in disk.tree {
      assert way == way[..|way|];
      ClearWayMissing(disk.tree, way, |way|);
    }
    err := disk.SyncDir(Parent(e.path));
    if err == Some(NotExist) { err := None; }
  }

  // One round of the rollback loop.
  method UndoEntry(disk: Disk, ghost t0: Tree, entries: seq<RollbackEntry>, k: nat) returns (err: Option<Errno>)
    requires k < |entries| && Closed(t0) && Captured(t0, entries[k])
    requires Between(t0, disk.tree, entries, k + 1)
    modifies disk
    ensures Closed(disk.tree) && OnlyTouchedUpTo(old(disk.tree), disk.tree, entries[k].path)
    ensures err == None ==> Between(t0, disk.tree, entries, k)
    ensures err == None ==> old(Reachable(disk.tree, entries[k].root, entries[k].path))
    ensures err == None ==> !HasChild(old(disk.tree), entries[k].path)
    ensures old(disk.faults) <= disk.faults
    ensures disk.faults == old(disk.faults) && PrefixFree(entries) ==> err == None
  {
    var e := entries[k];
    ghost var before := disk.tree;
    if PrefixFree(entries) { UndoIsPossible(t0, before, entries, k); }
    err := ValidateRestoreTargetPath(disk, e.root, e.path);
    if err != None { return; }
    ReachableWayIsClear(disk.tree, e.root, e.path);
    if e.existed {
      assert before[e.path].File?;
      err := disk.AtomicWriteFile(e.path, e.content, e.mode);
      if err == None { RewriteStep(t0, before, disk.tree, entries, k); }
    } else {
      err := UndoNewFile(disk, t0, entries, k);
    }
  }

  // With prefix-free targets nothing is in the way of an undo.
  lemma UndoIsPossible(t0: Tree, t: Tree, entries: seq<RollbackEntry>, k: nat)
    requires k < |entries| && Closed(t0) && Captured(t0, entries[k]) && PrefixFree(entries)
    requires Between(t0, t, entries, k + 1)
    ensures Reachable(t, entries[k].root, entries[k].path)
    ensures entries[k].path in t ==> t[entries[k].path].File? && !HasChild(t, entries[k].path)
  {
    var e := entries[k];
    forall i | |e.root| <= i < |e.path| && e.path[..i] in t ensures t[e.path[..i]].Dir? {
      var q := e.path[..i];
      assert Above(q, e.path);
      if q in t0 { OnlyDirsOnTheWay(t0, e.root, e.path, q); }
    }
  }

  ghost predicate AllCaptured(t: Tree, entries: seq<RollbackEntry>) {
    forall i :: 0 <= i < |entries| ==> Captured(t, entries[i])
  }

  // The files of the first m targets are in place.
  ghost predicate FilesInPlace(t: Tree, entries: seq<RollbackEntry>, m: nat) {
    forall i :: 0 <= i < m && i < |entries| ==> entries[i].path in t && t[entries[i].path].File?
  }

  // Undoing a later entry leaves the files of earlier targets where they are.
  lemma FilesStay(t: Tree, t': Tree, entries: seq<RollbackEntry>, m: nat, k: nat)
    requires m <= k < |entries| && DistinctPaths(entries) && Closed(t)
    requires FilesInPlace(t, entries, m) && OnlyTouchedUpTo(t, t', entries[k].path)
    requires Reachable(t, entries[k].root, entries[k].path)
    ensures FilesInPlace(t', entries, m)
  {
    forall i | 0 <= i < m ensures entries[i].path in t' && t'[entries[i].path].File? {
      if Above(entries[i].path, entries[k].path) {
        OnlyDirsOnTheWay(t, entries[k].root, entries[k].path, entries[i].path);
      }
    }
  }

  lemma UndoneMeansNoClash(t: Tree, entries: seq<RollbackEntry>, m: nat)
    requires m < |entries| && Closed(t) && FilesInPlace(t, entries, m)
    requires Reachable(t, entries[m].root, entries[m].path) && !HasChild(t, entries[m].path)
    ensures NoClash(entries, m)
  {
    forall i | 0 <= i < m
      ensures !Above(entries[i].path, entries[m].path) && !Above(entries[m].path, entries[i].path)
    {
      if Above(entries[i].path, entries[m].path) {
        OnlyDirsOnTheWay(t, entries[m].root, entries[m].path, entries[i].path);
      }
      if Above(entries[m].path, entries[i].path) {
        DescendantGivesChild(t, entries[m].path, entries[i].path);
      }
    }
  }

  // rollbackRestore: no error means the captured tree is back; with the files of
  // the first m targets in place it also means that target m clashed with none
  // of them.
  method RollbackRestore(disk: Disk, ghost t0: Tree, entries: seq<RollbackEntry>, ghost m: nat)
    returns (err: Option<Errno>)
    requires Closed(t0) && AllCaptured(t0, entries) && DistinctPaths(entries)
    requires Between(t0, disk.tree, entries, |entries|)
    requires m <= |entries| && FilesInPlace(disk.tree, entries, m)
    modifies disk
    ensures Closed(disk.tree)
    ensures err == None ==> disk.tree == t0
    ensures err == None && m < |entries| ==> NoClash(entries, m)
    ensures old(disk.faults) <= disk.faults
    ensures disk.faults == old(disk.faults) && PrefixFree(entries) ==> err == None
  {
    var k: nat := |entries|;
    while k > 0
      invariant k <= |entries|
      invariant Between(t0, disk.tree, entries, k)
      invariant m < k ==> FilesInPlace(disk.tree, entries, m)
      invariant k <= m < |entries| ==> NoClash(entries, m)
      invariant old(disk.faults) <= disk.faults
    {
      k := k - 1;
      ghost var before := disk.tree;
      err := UndoEntry(disk, t0, entries, k);
      if err != None { return; }
      if m < k { FilesStay(before, disk.tree, entries, m, k); }
      if m == k { UndoneMeansNoClash(before, entries, m); }
    }
    NothingWritten(t0, disk.tree, entries);
    err := None;
  }

  // ---- the archive and its targets ----

  // What one archive entry asks for: the entries a restore skips ask for nothing.
  function TargetOf(cfg: Config, f: ArchiveFile): seq<Target> {
    if f.isDir || f.name == "sitebrush-backup.json" then []
    else
      match RestoreTarget(cfg, f.name)
      case TargetAt(p) => (match RestoreRoot(cfg, f.name) case Some(root) => [Target(root, p, f)] case None => [])
      case _ => []
  }

  function Concat(found: seq<seq<Target>>): seq<Target> {
    if found == [] then [] else Concat(found[..|found| - 1]) + found[|found| - 1]
  }

  function Found(cfg: Config, files: seq<ArchiveFile>): (found: seq<seq<Target>>)
    ensures |found| == |files|
    ensures forall i :: 0 <= i < |files| ==> found[i] == TargetOf(cfg, files[i])
  {
    seq(|files|, i requires 0 <= i < |files| => TargetOf(cfg, files[i]))
  }

  function TargetsOf(cfg: Config, files: seq<ArchiveFile>): seq<Target> {
    Concat(Found(cfg, files))
  }

  // What validateRestoreArchive lets through.
  ghost predicate Acceptable(t: Tree, cfg: Config, f: ArchiveFile) {
    && ValidEntryName(f.name) && !f.isSymlink
    && (f.isDir ||
        match RestoreTarget(cfg, f.name)
        case TargetError => false
        case NoTarget => true
        case TargetAt(p) => RestoreRoot(cfg, f.name).Some? && Reachable(t, RestoreRoot(cfg, f.name).value, p))
  }

  ghost predicate AllAcceptable(t: Tree, cfg: Config, files: seq<ArchiveFile>) {
    forall i :: 0 <= i < |files| ==> Acceptable(t, cfg, files[i])
  }

  ghost predicate CleanConfig(cfg: Config) {
    CleanPath(cfg.webRoot) && CleanPath(cfg.archiveRoot)
  }

  method ValidateRestoreArchive(disk: Disk, cfg: Config, files: seq<ArchiveFile>) returns (err: Option<Errno>)
    requires Closed(disk.tree) && CleanConfig(cfg)
    modifies disk`faults
    ensures err == None ==> AllAcceptable(disk.tree, cfg, files)
    ensures old(disk.faults) <= disk.faults
    ensures disk.faults == old(disk.faults) && AllAcceptable(disk.tree, cfg, files) ==> err == None
  {
    for i := 0 to |files|
      invariant disk.tree == old(disk.tree) && old(disk.faults) <= disk.faults
      invariant AllAcceptable(disk.tree, cfg, files[..i])
    {
      var f := files[i];
      assert files[..i + 1] == files[..i] + [f];
      if !ValidEntryName(f.name) { return Some(Unsafe); }
      if f.isSymlink { return Some(Unsafe); }
      if f.isDir { continue; }
      match RestoreTarget(cfg, f.name) {
        case TargetError => return Some(Unsafe);
        case NoTarget =>
        case TargetAt(p) =>
          TargetIsUnderItsRoot(cfg, f.name);
          var root := RestoreRoot(cfg, f.name);
          if root == None { return Some(Unsafe); }
          err := ValidateRestoreTargetPath(disk, root.value, p);
          if err != None { return; }
      }
    }
    assert files[..|files|] == files;
    err := None;
  }

  ghost predicate HasTarget(targets: seq<Target>, p: Path) {
    exists i :: 0 <= i < |targets| && targets[i].path == p
  }

  ghost predicate DistinctTargets(targets: seq<Target>) {
    forall i, j :: 0 <= i < j < |targets| ==> targets[i].path != targets[j].path
  }

  // The body of collectRestoreTargets up to the duplicate test.
  method LocateTarget(disk: Disk, cfg: Config, f: ArchiveFile) returns (err: Option<Errno>, found: seq<Target>)
    requires Closed(disk.tree) && CleanConfig(cfg)
    modifies disk`faults
    ensures err == None ==> found == TargetOf(cfg, f) && |found| <= 1
    ensures err == None && found != [] ==> CleanPath(found[0].path)
    ensures old(disk.faults) <= disk.faults
    ensures disk.faults == old(disk.faults) && Acceptable(disk.tree, cfg, f) ==> err == None
  {
    if f.isDir || f.name == "sitebrush-backup.json" { return None, []; }
    match RestoreTarget(cfg, f.name) {
      case TargetError => return Some(Unsafe), [];
      case NoTarget => return None, [];
      case TargetAt(p) =>
        TargetIsUnderItsRoot(cfg, f.name);
        var root := RestoreRoot(cfg, f.name).value;
        err := ValidateRestoreTargetPath(disk, root, p);
        found := [Target(root, p, f)];
    }
  }

  // collectRestoreTargets: the targets in archive order, refusing a repeated path.
  method CollectRestoreTargets(disk: Disk, cfg: Config, files: seq<ArchiveFile>)
    returns (err: Option<Errno>, targets: seq<Target>)
    requires Closed(disk.tree) && CleanConfig(cfg)
    modifies disk`faults
    ensures err == None ==> targets == TargetsOf(cfg, files) && DistinctTargets(targets)
    ensures err == None ==> forall i :: 0 <= i < |targets| ==> CleanPath(targets[i].path)
    ensures old(disk.faults) <= disk.faults
    ensures (disk.faults == old(disk.faults) && AllAcceptable(disk.tree, cfg, files)
             && DistinctTargets(TargetsOf(cfg, files)))
      ==> err == None
  {
    targets := [];
    var seen: map<Path, string> := map[];
    for i := 0 to |files|
      invariant disk.tree == old(disk.tree) && old(disk.faults) <= disk.faults
      invariant targets == TargetsOf(cfg, files[..i]) && DistinctTargets(targets)
      invariant forall q :: q in seen <==> HasTarget(targets, q)
      invariant forall j :: 0 <= j < |targets| ==> CleanPath(targets[j].path)
    {
      var e, found := LocateTarget(disk, cfg, files[i]);
      if e != None { return e, []; }
      if found != [] {
        var p := found[0].path;
        if p in seen {
          RepeatedTarget(cfg, files, i, p);
          return Some(Exist), [];
        }
        assert found == [found[0]];
        OneMoreTarget(targets, found[0]);
        seen := seen[p := files[i].name];
      } else {
        assert targets + found == targets;
      }
      OneMoreFile(cfg, files, i);
      targets := targets + found;
    }
    assert files[..|files|] == files;
    err := None;
  }

  lemma OneMoreFile(cfg: Config, files: seq<ArchiveFile>, i: nat)
    requires i < |files|
    ensures TargetsOf(cfg, files[..i + 1]) == TargetsOf(cfg, files[..i]) + TargetOf(cfg, files[i])
  {
    assert Found(cfg, files[..i + 1]) == Found(cfg, files[..i]) + [TargetOf(cfg, files[i])];
  }

  lemma OneMoreTarget(targets: seq<Target>, t: Target)
    requires DistinctTargets(targets)
    ensures forall q :: HasTarget(targets + [t], q) <==> HasTarget(targets, q) || q == t.path
    ensures !HasTarget(targets, t.path) ==> DistinctTargets(targets + [t])
  {
    var more := targets + [t];
    assert more[|targets|] == t;
    forall q | HasTarget(targets, q) ensures HasTarget(more, q) {
      var i :| 0 <= i < |targets| && targets[i].path == q;
      assert more[i].path == q;
    }
  }

  lemma {:induction false} ConcatPrefix(found: seq<seq<Target>>, i: nat)
    requires i <= |found|
    ensures Concat(found[..i]) <= Concat(found)
    decreases |found|
  {
    if i < |found| {
      assert found[..|found| - 1][..i] == found[..i];
      ConcatPrefix(found[..|found| - 1], i);
    } else {
      assert found[..i] == found;
    }
  }

  lemma RepeatedTarget(cfg: Config, files: seq<ArchiveFile>, i: nat, p: Path)
    requires i < |files| && |TargetOf(cfg, files[i])| == 1 && TargetOf(cfg, files[i])[0].path == p
    requires HasTarget(TargetsOf(cfg, files[..i]), p)
    ensures !DistinctTargets(TargetsOf(cfg, files))
  {
    var before, now := TargetsOf(cfg, files[..i]), TargetsOf(cfg, files[..i + 1]);
    OneMoreFile(cfg, files, i);
    assert Found(cfg, files)[..i + 1] == Found(cfg, files[..i + 1]);
    ConcatPrefix(Found(cfg, files), i + 1);
    var j :| 0 <= j < |before| && before[j].path == p;
    assert TargetsOf(cfg, files)[j].path == now[j].path == p;
    assert TargetsOf(cfg, files)[|before|].path == now[|before|].path == p;
  }

  // ---- the whole restore ----

  lemma TargetsAreReachable(t: Tree, cfg: Config, files: seq<ArchiveFile>)
    requires AllAcceptable(t, cfg, files)
    ensures forall i :: 0 <= i < |TargetsOf(cfg, files)| ==>
      var target := TargetsOf(cfg, files)[i];
      Reachable(t, target.root, target.path) && !target.file.isSymlink
  {
    forall i, j | 0 <= i < |files| && 0 <= j < |Found(cfg, files)[i]|
      ensures Usable(t, Found(cfg, files)[i][j])
    {
      assert Acceptable(t, cfg, files[i]);
    }
    ConcatUsable(t, Found(cfg, files));
    forall i | 0 <= i < |TargetsOf(cfg, files)| ensures Usable(t, TargetsOf(cfg, files)[i]) {
    }
  }

  ghost predicate Usable(t: Tree, target: Target) {
    Reachable(t, target.root, target.path) && !target.file.isSymlink
  }

  lemma {:induction false} ConcatUsable(t: Tree, found: seq<seq<Target>>)
    requires forall i, j :: 0 <= i < |found| && 0 <= j < |found[i]| ==> Usable(t, found[i][j])
    ensures forall i :: 0 <= i < |Concat(found)| ==> Usable(t, Concat(found)[i])
  {
    if found != [] { ConcatUsable(t, found[..|found| - 1]); }
  }

  ghost predicate EntriesFor(targets: seq<Target>, entries: seq<RollbackEntry>) {
    && |entries| == |targets|
    && forall i :: 0 <= i < |targets| ==> entries[i].path == targets[i].path && entries[i].root == targets[i].root
  }

  ghost predicate TargetsAreFiles(t: Tree, targets: seq<Target>) {
    forall i :: 0 <= i < |targets| && targets[i].path in t ==> t[targets[i].path].File?
  }

  method CaptureAll(disk: Disk, targets: seq<Target>) returns (err: Option<Errno>, entries: seq<RollbackEntry>)
    requires Closed(disk.tree) && forall i :: 0 <= i < |targets| ==> CleanPath(targets[i].path)
    modifies disk`faults
    ensures err == None ==> AllCaptured(disk.tree, entries) && EntriesFor(targets, entries)
    ensures err == None ==> TargetsAreFiles(disk.tree, targets)
    ensures old(disk.faults) <= disk.faults
    ensures (disk.faults == old(disk.faults) && TargetsAreFiles(disk.tree, targets)
             && forall i :: 0 <= i < |targets| ==> Reachable(disk.tree, targets[i].root, targets[i].path))
      ==> err == None
  {
    entries := [];
    for i := 0 to |targets|
      invariant disk.tree == old(disk.tree) && old(disk.faults) <= disk.faults
      invariant AllCaptured(disk.tree, entries) && EntriesFor(targets[..i], entries)
      invariant TargetsAreFiles(disk.tree, targets[..i])
    {
      var e, entry := Capture(disk, targets[i].root, targets[i].path);
      if e != None { return e, []; }
      entries := entries + [entry];
    }
    assert targets[..|targets|] == targets;
    err := None;
  }

  // The first m targets hold their archived content.
  ghost predicate Placed(t: Tree, targets: seq<Target>, m: nat) {
    forall i :: 0 <= i < m && i < |targets| ==>
      targets[i].path in t && t[targets[i].path] == Restorable(targets[i].file)
  }

  lemma PlacedStay(t: Tree, t': Tree, targets: seq<Target>, entries: seq<RollbackEntry>, i: nat)
    requires i < |targets| && EntriesFor(targets, entries) && DistinctPaths(entries)
    requires Placed(t, targets, i) && OnlyWrote(t, t', targets[i].path, Restorable(targets[i].file))
    ensures Placed(t', targets, i)
  {
    forall j | 0 <= j < i ensures targets[j].path in t' && t'[targets[j].path] == Restorable(targets[j].file) {
      assert entries[j].path != entries[i].path;
    }
  }

  lemma PlacedAreFiles(t: Tree, targets: seq<Target>, entries: seq<RollbackEntry>, m: nat)
    requires EntriesFor(targets, entries) && Placed(t, targets, m)
    ensures FilesInPlace(t, entries, m)
  {
  }

  // One turn of the restore loop.
  method RestoreOne(disk: Disk, ghost t0: Tree, target: Target, ghost entries: seq<RollbackEntry>, ghost i: nat)
    returns (err: Option<Errno>)
    requires Closed(t0) && i < |entries| && Captured(t0, entries[i]) && !target.file.isSymlink
    requires entries[i].path == target.path && entries[i].root == target.root
    requires Between(t0, disk.tree, entries, i)
    modifies disk
    ensures Between(t0, disk.tree, entries, i + 1)
    ensures OnlyWrote(old(disk.tree), disk.tree, target.path, Restorable(target.file))
    ensures err == None ==> target.path in disk.tree && disk.tree[target.path] == Restorable(target.file)
    ensures old(disk.faults) <= disk.faults
    ensures disk.faults == old(disk.faults) && err != None ==> !NoClash(entries, i)
  {
    ghost var before := disk.tree;
    if !(Reachable(before, target.root, target.path) && (target.path in before ==> !before[target.path].Dir?)) {
      BlockedMeansClash(t0, before, entries, i);
    }
    err := RestoreZipFile(disk, target.file, target.root, target.path);
    WriteStep(t0, before, disk.tree, entries, i, Restorable(target.file));
  }

  // The restore loop, stopping at target m.
  method RestoreAll(disk: Disk, ghost t0: Tree, targets: seq<Target>, ghost entries: seq<RollbackEntry>)
    returns (err: Option<Errno>, ghost m: nat)
    requires Closed(t0) && disk.tree == t0 && AllCaptured(t0, entries)
    requires EntriesFor(targets, entries) && DistinctPaths(entries)
    requires forall i :: 0 <= i < |targets| ==> !targets[i].file.isSymlink
    modifies disk
    ensures Between(t0, disk.tree, entries, |entries|)
    ensures m <= |targets| && FilesInPlace(disk.tree, entries, m)
    ensures err == None ==> m == |targets| && Placed(disk.tree, targets, m)
    ensures old(disk.faults) <= disk.faults
    ensures disk.faults == old(disk.faults) && err != None ==> m < |targets| && !NoClash(entries, m)
  {
    m := 0;
    for i := 0 to |targets|
      invariant m == i && Between(t0, disk.tree, entries, i)
      invariant Placed(disk.tree, targets, i)
      invariant old(disk.faults) <= disk.faults
    {
      ghost var before := disk.tree;
      assert Captured(t0, entries[i]);
      err := RestoreOne(disk, t0, targets[i], entries, i);
      PlacedStay(before, disk.tree, targets, entries, i);
      if err != None {
        PlacedAreFiles(disk.tree, targets, entries, i);
        MoreTargets(t0, disk.tree, entries, i + 1, |entries|);
        return;
      }
      m := i + 1;
    }
    PlacedAreFiles(disk.tree, targets, entries, m);
    err := None;
  }

  lemma AllInPlaceIsPrefixFree(t: Tree, entries: seq<RollbackEntry>)
    requires Closed(t) && FilesInPlace(t, entries, |entries|)
    ensures PrefixFree(entries)
  {
    forall i, j | 0 <= i < |entries| && 0 <= j < |entries| ensures !Above(entries[i].path, entries[j].path) {
      if Above(entries[i].path, entries[j].path) { AncestorsAreDirs(t, entries[i].path, entries[j].path); }
    }
  }

  ghost predicate PrefixFreeTargets(targets: seq<Target>) {
    forall i, j :: 0 <= i < |targets| && 0 <= j < |targets| ==> !Above(targets[i].path, targets[j].path)
  }

  // What a completed restore means: the targets hold their archived content, new
  // directories only lead to targets, and nothing else has changed.
  ghost predicate Applied(t: Tree, t': Tree, targets: seq<Target>) {
    && Placed(t', targets, |targets|)
    && (forall q :: q in t && !HasTarget(targets, q) ==> q in t' && t'[q] == t[q])
    && (forall q :: q in t' && q !in t && !HasTarget(targets, q) ==>
          t'[q].Dir? && exists i :: 0 <= i < |targets| && Above(q, targets[i].path))
  }

  lemma BetweenMeansApplied(t0: Tree, t: Tree, targets: seq<Target>, entries: seq<RollbackEntry>)
    requires EntriesFor(targets, entries) && Between(t0, t, entries, |entries|) && Placed(t, targets, |targets|)
    ensures Applied(t0, t, targets)
  {
    forall q | q in t0 && !HasTarget(targets, q) ensures q in t && t[q] == t0[q] {
      assert !IsTarget(entries, |entries|, q);
    }
    forall q | q in t && q !in t0 && !HasTarget(targets, q)
      ensures t[q].Dir? && exists i :: 0 <= i < |targets| && Above(q, targets[i].path)
    {
      assert !IsTarget(entries, |entries|, q);
      var i :| 0 <= i < |entries| && Above(q, entries[i].path);
      assert Above(q, targets[i].path);
    }
  }

  // The archive can be tried on this tree.
  ghost predicate Admissible(t: Tree, cfg: Config, files: seq<ArchiveFile>) {
    && AllAcceptable(t, cfg, files)
    && DistinctTargets(TargetsOf(cfg, files))
    && TargetsAreFiles(t, TargetsOf(cfg, files))
  }

  // The writing half of restoreBackup, with every target captured.
  method WriteOrUndo(disk: Disk, targets: seq<Target>, entries: seq<RollbackEntry>)
    returns (outcome: Outcome)
    requires Closed(disk.tree) && AllCaptured(disk.tree, entries)
    requires EntriesFor(targets, entries) && DistinctPaths(entries)
    requires forall i :: 0 <= i < |targets| ==> !targets[i].file.isSymlink
    modifies disk
    ensures Closed(disk.tree) && outcome != Rejected
    ensures outcome == RolledBack ==> disk.tree == old(disk.tree)
    ensures outcome == Restored ==> Applied(old(disk.tree), disk.tree, targets) && PrefixFree(entries)
    ensures outcome == RollbackFailed && PrefixFree(entries) ==> old(disk.faults) + 2 <= disk.faults
    ensures old(disk.faults) <= disk.faults
    ensures disk.faults == old(disk.faults) ==> outcome == if PrefixFree(entries) then Restored else RollbackFailed
  {
    ghost var t0 := disk.tree;
    ghost var m;
    var err;
    err, m := RestoreAll(disk, t0, targets, entries);
    if err == None {
      AllInPlaceIsPrefixFree(disk.tree, entries);
      var bad := disk.Fault();  // checksum of the archive, then the backup record
      if !bad {
        BetweenMeansApplied(t0, disk.tree, targets, entries);
        return Restored;
      }
    }
    assert PrefixFree(entries) && m < |entries| ==> NoClash(entries, m);
    assert PrefixFree(entries) ==> old(disk.faults) < disk.faults;
    err := RollbackRestore(disk, t0, entries, m);
    outcome := if err == None then RolledBack else RollbackFailed;
  }

  // restoreBackup.  A restore that reports failure without a failed rollback has
  // changed nothing; a rollback can only fail if a call failed during it, besides the
  // one that started it, or if one target is above another; and when no call fails at
  // all, the outcome is decided by the archive and the tree alone.
  method RestoreBackup(disk: Disk, cfg: Config, files: seq<ArchiveFile>)
    returns (outcome: Outcome)
    requires Closed(disk.tree) && CleanConfig(cfg)
    modifies disk
    ensures Closed(disk.tree)
    ensures outcome == Rejected || outcome == RolledBack ==> disk.tree == old(disk.tree)
    ensures outcome == Restored ==>
      && Applied(old(disk.tree), disk.tree, TargetsOf(cfg, files))
      && Admissible(old(disk.tree), cfg, files) && PrefixFreeTargets(TargetsOf(cfg, files))
    ensures outcome == RollbackFailed && PrefixFreeTargets(TargetsOf(cfg, files)) ==> old(disk.faults) + 2 <= disk.faults
    ensures disk.faults == old(disk.faults) ==>
      outcome == if !Admissible(old(disk.tree), cfg, files) then Rejected
                 else if PrefixFreeTargets(TargetsOf(cfg, files)) then Restored
                 else RollbackFailed
  {
    var bad := disk.Fault();  // opening the archive
    if bad { return Rejected; }
    var err := ValidateRestoreArchive(disk, cfg, files);
    if err != None { return Rejected; }
    var err', targets := CollectRestoreTargets(disk, cfg, files);
    if err' != None { return Rejected; }
    TargetsAreReachable(disk.tree, cfg, files);
    var err'', entries := CaptureAll(disk, targets);
    if err'' != None { return Rejected; }
    assert PrefixFreeTargets(targets) <==> PrefixFree(entries);
    outcome := WriteOrUndo(disk, targets, entries);
  }
}
