// Renaming a page file: directories are made, the file is moved, and a failing
// directory sync takes the move back.

module PageRenames {
  import opened FilePaths
  import opened FileTree

  // Unchanged: nothing to do, which includes a missing source.
  // Stranded: the rename took effect, its directory sync failed and so did undoing it.
  datatype RenameOutcome = Renamed | Unchanged | RenameFailed | Stranded

  // A rename that added the directories above `target` and then moved the file.
  ghost predicate RenamedTo(t: Tree, t': Tree, source: Path, target: Path, mid: Tree) {
    && source in t && target !in t && target != [] && !(source <= target)
    && OnlyDirsAdded(t, mid, Parent(target)) && t' == Moved(mid, source, target)
  }

  lemma MovedBackAt(t: Tree, source: Path, target: Path, q: Path)
    requires !(source <= target) && forall o :: o in t ==> !(target <= o)
    ensures var back := Moved(Moved(t, source, target), target, source);
      (q in back <==> q in t) && (q in t ==> back[q] == t[q])
  {
    var t' := Moved(t, source, target);
    MovedNodes(t', target, source);
    MovedNodes(t, source, target);
    if source <= q {
      RebaseBack(q, source, target);
    }
  }

  lemma MoveThereAndBack(t: Tree, source: Path, target: Path)
    requires Closed(t) && source in t && target !in t && !(source <= target)
    ensures Moved(Moved(t, source, target), target, source) == t
  {
    NothingBelowMissing(t, target);
    forall q
      ensures q in Moved(Moved(t, source, target), target, source) <==> q in t
      ensures q in t ==> Moved(Moved(t, source, target), target, source)[q] == t[q]
    {
      MovedBackAt(t, source, target, q);
    }
  }

  // ---- renaming one file ----

  // rollbackRenameAfterSyncFailure: true when the file is back, whatever the
  // syncs that follow report.
  method UndoRename(web: Disk, source: Path, target: Path) returns (back: bool)
    requires Closed(web.tree) && source != [] && target != [] && source != target
    modifies web
    ensures Closed(web.tree)
    ensures web.tree == if back then Moved(old(web.tree), target, source) else old(web.tree)
    ensures old(web.faults) <= web.faults
    ensures (target in old(web.tree) && !(target <= source) && source !in old(web.tree)
             && Parent(source) in old(web.tree) && old(web.tree)[Parent(source)].Dir?)
      ==> back || old(web.faults) < web.faults
  {
    var err := web.Rename(target, source);
    if err != None { return false; }
    var e := web.SyncDir(Parent(source));
    if e == None && Parent(source) != Parent(target) { e := web.SyncDir(Parent(target)); }
    back := true;
  }

  // The end of renameStaticFile: sync the directories of a rename just made, or
  // take it back.
  method SyncRename(web: Disk, source: Path, target: Path, ghost mid: Tree) returns (outcome: RenameOutcome)
    requires Closed(web.tree) && Closed(mid) && source in mid && source != [] && target != [] && target !in mid
    requires Parent(target) in mid && !(source <= target) && web.tree == Moved(mid, source, target)
    modifies web
    ensures Closed(web.tree) && outcome in {Renamed, RenameFailed, Stranded}
    ensures web.tree == if outcome == RenameFailed then mid else Moved(mid, source, target)
    ensures old(web.faults) <= web.faults
    ensures web.faults == old(web.faults) ==> outcome == Renamed
    ensures outcome == Stranded ==> old(web.faults) + 2 <= web.faults
  {
    TargetParentStays(mid, source, target);
    SourceParentStays(mid, source, target);
    var err := web.SyncDir(Parent(target));
    if err == None && Parent(source) != Parent(target) { err := web.SyncDir(Parent(source)); }
    if err == None { return Renamed; }
    MoveThereAndBack(mid, source, target);
    MovedAway(mid, source, target);
    var back := UndoRename(web, source, target);
    outcome := if back then RenameFailed else Stranded;
  }

  lemma MovedAway(mid: Tree, source: Path, target: Path)
    requires Closed(mid) && source in mid && source != [] && target !in mid && !(source <= target)
    ensures var t := Moved(mid, source, target);
      target in t && source !in t && !(target <= source) && Parent(source) in t && t[Parent(source)].Dir?
  {
    MovedNodes(mid, source, target);
    NothingBelowMissing(mid, target);
    RebaseBack(source, source, target);
    assert Rebase(target, target, source) == source;
    assert !(source <= Parent(source)) && Parent(source) in mid;
    if target <= Parent(source) { BelowParent(target, source); }
  }

  // renameStaticFile
  method RenameStaticFile(web: Disk, source: Path, target: Path) returns (outcome: RenameOutcome, ghost mid: Tree)
    requires Closed(web.tree) && source != [] && target != []
    modifies web
    ensures Closed(web.tree) && Closed(mid)
    ensures outcome == Renamed || outcome == Stranded ==> RenamedTo(old(web.tree), web.tree, source, target, mid)
    ensures outcome == Unchanged ==>
      web.tree == old(web.tree) && (source == target || (source !in web.tree && target !in web.tree))
    ensures outcome == Unchanged && source != target ==>
      MissReason(web.tree, source) == NotExist && MissReason(web.tree, target) == NotExist
    ensures outcome == RenameFailed ==> OnlyDirsAdded(old(web.tree), web.tree, Parent(target))
    ensures outcome == RenameFailed && source !in old(web.tree) ==> web.tree == old(web.tree)
    ensures outcome == Stranded ==> old(web.faults) + 2 <= web.faults
    ensures old(web.faults) <= web.faults
    ensures (web.faults == old(web.faults) && target !in old(web.tree) && old(WayIsClear(web.tree, Parent(target)))
             && source in old(web.tree) && !(source <= target))
      ==> outcome == Renamed
    ensures (web.faults == old(web.faults) && source !in old(web.tree) && MissReason(old(web.tree), source) == NotExist
             && target !in old(web.tree) && MissReason(old(web.tree), target) == NotExist)
      ==> outcome == Unchanged
  {
    mid := web.tree;
    if source == target { return Unchanged, mid; }
    var bad := web.Fault();  // validateExistingParentSymlinkSafe
    if bad { return RenameFailed, mid; }
    if target !in web.tree && WayIsClear(web.tree, Parent(target)) { MissingUnderClearWay(web.tree, target); }
    var err, _ := web.Lstat(target);
    if err != Some(NotExist) { return RenameFailed, mid; }
    var e, _ := web.Lstat(source);
    if e == Some(NotExist) { return Unchanged, mid; }
    if e != None { return RenameFailed, mid; }
    err := web.MkdirAll(Parent(target));
    if err != None { return RenameFailed, mid; }
    mid := web.tree;
    TargetStaysFree(old(web.tree), mid, target);
    err := web.Rename(source, target);
    if err != None { return RenameFailed, mid; }
    outcome := SyncRename(web, source, target, mid);
  }

  lemma TargetStaysFree(t: Tree, mid: Tree, target: Path)
    requires target != [] && target !in t && OnlyDirsAdded(t, mid, Parent(target))
    ensures target !in mid
  {
  }

  // The directories whose syncs follow a rename are still there.
  lemma TargetParentStays(mid: Tree, source: Path, target: Path)
    requires target != [] && !(source <= target) && Parent(target) in mid
    ensures Parent(target) in Moved(mid, source, target)
  {
    MovedNodes(mid, source, target);
    BelowParent(source, target);
  }

  lemma SourceParentStays(mid: Tree, source: Path, target: Path)
    requires Closed(mid) && source in mid && source != [] && target != [] && target !in mid
    ensures Parent(source) in Moved(mid, source, target)
  {
    NothingBelowMissing(mid, target);
    MovedNodes(mid, source, target);
  }
}
