// createBackup, and what a backup followed by a restore gives back.

module BackupCreate {
  import opened FilePaths
  import opened SlashNames
  import opened FileTree
  import opened ArchiveNames
  import opened BackupRestore
  import opened BackupWalk

  // ---- putting the archive under a name of its own ----

  function BackupsDir(cfg: Config): Path {
    cfg.archiveRoot + ["backups"]
  }

  function RecordName(name: string): string {
    name + ".json"
  }

  // The first of the drawn names that is free.
  function FirstFree(t: Tree, dir: Path, names: seq<string>): (free: Option<string>)
    ensures free.Some? ==> free.value in names && dir + [free.value] !in t
    ensures free == None ==> forall n :: n in names ==> dir + [n] in t
  {
    if names == [] then None
    else if dir + [names[0]] !in t then Some(names[0])
    else FirstFree(t, dir, names[1..])
  }

  // The archive of one of these names, or the record kept beside it.
  ghost predicate IsBackupFile(dir: Path, names: seq<string>, p: Path) {
    exists n :: n in names && (p == dir + [n] || p == dir + [RecordName(n)])
  }

  // Nothing is new but such files, and of what was there only a record may be another.
  ghost predicate OnlyBackups(t: Tree, t': Tree, dir: Path, names: seq<string>) {
    && (forall p :: p in t ==> p in t' && (t'[p] == t[p] || (IsBackupFile(dir, names, p) && !t[p].Dir?)))
    && (forall p :: p in t' && p !in t ==> IsBackupFile(dir, names, p))
  }

  // reserveUniqueBackupPath: at most sixteen names are drawn and tried.
  method ReserveUniqueBackupPath(disk: Disk, dir: Path, names: seq<string>) returns (err: Option<Errno>, name: string)
    requires Closed(disk.tree) && dir in disk.tree && disk.tree[dir].Dir?
    modifies disk
    ensures Closed(disk.tree)
    ensures err == None ==> FirstFree(old(disk.tree), dir, names) == Some(name)
    ensures err == None ==> disk.tree == old(disk.tree)[dir + [name] := File("", 0x180)] && disk.faults == old(disk.faults)
    ensures OnlyBackups(old(disk.tree), disk.tree, dir, names)
    ensures old(disk.faults) <= disk.faults
    ensures disk.faults == old(disk.faults) ==> (err == None <==> FirstFree(old(disk.tree), dir, names).Some?)
  {
    var i := 0;
    while i < |names|
      invariant i <= |names| && disk.tree == old(disk.tree) && disk.faults == old(disk.faults)
      invariant FirstFree(disk.tree, dir, names) == FirstFree(disk.tree, dir, names[i..])
    {
      name := names[i];
      assert Parent(dir + [name]) == dir;
      var e := disk.CreateExclusive(dir + [name], 0x180);
      if e == None {
        assert IsBackupFile(dir, names, dir + [name]);
        var bad := disk.Fault();  // closing the reservation
        if bad {
          var _ := disk.Remove(dir + [name]);
          return Some(IoFailure), "";
        }
        return None, name;
      }
      if e != Some(Exist) { return e, ""; }
      i := i + 1;
    }
    err, name := Some(Exist), "";
  }

  lemma OnlyBackupsTrans(t: Tree, t': Tree, t'': Tree, dir: Path, names: seq<string>)
    requires OnlyBackups(t, t', dir, names) && OnlyBackups(t', t'', dir, names)
    ensures OnlyBackups(t, t'', dir, names)
  {
  }

  // A write into a directory that is there touches its own file only.
  lemma WroteOnly(t: Tree, t': Tree, p: Path, file: Node)
    requires Closed(t) && p != [] && Parent(p) in t && OnlyWrote(t, t', p, file)
    ensures forall q :: q != p ==> (q in t <==> q in t') && (q in t ==> t'[q] == t[q])
    ensures p in t' && t'[p] == file ==> t' == t[p := file]
  {
    forall q | q in t' && q != p ensures q in t {
      if q !in t {
        PrefixOfParent(q, p);
        if q != Parent(p) { AncestorsAreDirs(t, q, Parent(p)); }
      }
    }
  }

  // The rename of the finished temporary file over its reservation.
  method PutArchive(disk: Disk, dir: Path, name: string, bytes: string, names: seq<string>) returns (err: Option<Errno>)
    requires Closed(disk.tree) && dir in disk.tree && disk.tree[dir].Dir? && name in names
    requires dir + [name] in disk.tree && disk.tree[dir + [name]].File?
    modifies disk
    ensures Closed(disk.tree)
    ensures err == None ==> disk.tree == old(disk.tree)[dir + [name] := File(bytes, 0x180)]
    ensures forall q :: q != dir + [name] ==>
      (q in old(disk.tree) <==> q in disk.tree) && (q in old(disk.tree) ==> disk.tree[q] == old(disk.tree)[q])
    ensures old(disk.faults) <= disk.faults
    ensures disk.faults == old(disk.faults) ==> err == None
  {
    var p := dir + [name];
    assert Parent(p) == dir;
    AboveAreClear(disk.tree, dir);
    err := disk.AtomicWriteFile(p, bytes, 0x180);
    WroteOnly(old(disk.tree), disk.tree, p, File(bytes, 0x180));
    if err != None { var _ := disk.Remove(p); }
  }

  // Both together: an archive of that name is there, or nothing more than a failure left.
  method PlaceArchive(disk: Disk, dir: Path, bytes: string, names: seq<string>) returns (err: Option<Errno>, name: string)
    requires Closed(disk.tree) && dir in disk.tree && disk.tree[dir].Dir?
    modifies disk
    ensures Closed(disk.tree)
    ensures err == None ==>
      FirstFree(old(disk.tree), dir, names) == Some(name) && disk.tree == old(disk.tree)[dir + [name] := File(bytes, 0x180)]
    ensures OnlyBackups(old(disk.tree), disk.tree, dir, names)
    ensures old(disk.faults) <= disk.faults
    ensures disk.faults == old(disk.faults) ==> (err == None <==> FirstFree(old(disk.tree), dir, names).Some?)
  {
    err, name := ReserveUniqueBackupPath(disk, dir, names);
    if err != None { return; }
    assert IsBackupFile(dir, names, dir + [name]);
    err := PutArchive(disk, dir, name, bytes, names);
  }

  // The JSON record beside the archive.
  method PutRecord(disk: Disk, dir: Path, name: string, json: string, names: seq<string>) returns (err: Option<Errno>)
    requires Closed(disk.tree) && dir in disk.tree && disk.tree[dir].Dir? && name in names
    modifies disk
    ensures Closed(disk.tree)
    ensures err == None ==> disk.tree == old(disk.tree)[dir + [RecordName(name)] := File(json, 0x180)]
    ensures OnlyBackups(old(disk.tree), disk.tree, dir, names)
    ensures old(disk.faults) <= disk.faults
    ensures disk.faults == old(disk.faults) ==>
      (err == None <==> !(dir + [RecordName(name)] in old(disk.tree) && old(disk.tree)[dir + [RecordName(name)]].Dir?))
  {
    var p := dir + [RecordName(name)];
    assert Parent(p) == dir && IsBackupFile(dir, names, p);
    AboveAreClear(disk.tree, dir);
    err := disk.AtomicWriteFile(p, json, 0x180);
    WroteOnly(old(disk.tree), disk.tree, p, File(json, 0x180));
  }

  function Stored(t: Tree, dir: Path, name: string, bytes: string, json: string): Tree {
    t[dir + [name] := File(bytes, 0x180)][dir + [RecordName(name)] := File(json, 0x180)]
  }

  // What lets the archive be stored.
  ghost predicate Storable(t: Tree, dir: Path, names: seq<string>) {
    var name := FirstFree(t, dir, names);
    name.Some? && !(dir + [RecordName(name.value)] in t && t[dir + [RecordName(name.value)]].Dir?)
  }

  method StoreArchive(disk: Disk, dir: Path, bytes: string, json: string, names: seq<string>)
    returns (err: Option<Errno>, name: string)
    requires Closed(disk.tree) && dir in disk.tree && disk.tree[dir].Dir?
    modifies disk
    ensures Closed(disk.tree)
    ensures err == None ==>
      FirstFree(old(disk.tree), dir, names) == Some(name) && disk.tree == Stored(old(disk.tree), dir, name, bytes, json)
    ensures OnlyBackups(old(disk.tree), disk.tree, dir, names)
    ensures old(disk.faults) <= disk.faults
    ensures disk.faults == old(disk.faults) ==> (err == None <==> Storable(old(disk.tree), dir, names))
  {
    err, name := PlaceArchive(disk, dir, bytes, names);
    if err != None { return; }
    assert (dir + [RecordName(name)])[|dir|] != (dir + [name])[|dir|];
    var bad := disk.Fault();  // the checksum of the archive
    if bad { return Some(IoFailure), name; }
    ghost var t := disk.tree;
    err := PutRecord(disk, dir, name, json, names);
    OnlyBackupsTrans(old(disk.tree), t, disk.tree, dir, names);
    if err != None { return; }
    bad := disk.Fault();  // the row in the database
    if bad { err := Some(IoFailure); }
  }

  // ---- createBackup ----

  lemma DirsDoNotCount(t: Tree, t': Tree, cfg: Config, p: Path)
    requires OnlyDirsAdded(t, t', p)
    ensures BackupNames(t', cfg) == BackupNames(t, cfg)
    ensures PlainRegions(t, cfg) ==> PlainRegions(t', cfg)
    ensures forall order, files, zipMode ::
      IsBackup(t', BackupNames(t', cfg), order, files, zipMode) ==> IsBackup(t, BackupNames(t, cfg), order, files, zipMode)
  {
  }

  // What createBackup asks of the tree, apart from calls that break.
  ghost predicate Ready(t: Tree, cfg: Config, names: seq<string>) {
    && cfg.webRoot in t && !(cfg.webRoot <= BackupsDir(cfg)) && WayIsClear(t, BackupsDir(cfg))
    && (forall name {:trigger cfg.archiveRoot + [name]} ::
          name in {"site-state.json", "redirects.json"} && cfg.archiveRoot + [name] in t ==> t[cfg.archiveRoot + [name]].File?)
    && (DomainsDir(cfg) in t ==> t[DomainsDir(cfg)].Dir?)
    && Storable(t, BackupsDir(cfg), names)
  }

  lemma BesideBackups(t: Tree, t': Tree, cfg: Config, name: string)
    requires Closed(t') && OnlyDirsAdded(t, t', BackupsDir(cfg)) && BackupsDir(cfg) in t' && name != "backups"
    ensures var p := cfg.archiveRoot + [name];
      (p in t' <==> p in t) && (p in t ==> t'[p] == t[p]) && (p !in t' ==> MissReason(t', p) == NotExist)
  {
    var p := cfg.archiveRoot + [name];
    assert Parent(p) == Parent(BackupsDir(cfg)) == cfg.archiveRoot;
    assert p[|cfg.archiveRoot|] != BackupsDir(cfg)[|cfg.archiveRoot|];
  }

  lemma ReadableMeans(t: Tree, t': Tree, cfg: Config)
    requires Closed(t') && OnlyDirsAdded(t, t', BackupsDir(cfg)) && BackupsDir(cfg) in t'
    ensures MetadataReadable(t', cfg) <==>
      && (forall name {:trigger cfg.archiveRoot + [name]} ::
            name in {"site-state.json", "redirects.json"} && cfg.archiveRoot + [name] in t ==> t[cfg.archiveRoot + [name]].File?)
      && (DomainsDir(cfg) in t ==> t[DomainsDir(cfg)].Dir?)
  {
    var checked := ["site-state.json", "redirects.json", "metadata", "templates", "domains"];
    forall i | 0 <= i < |checked| ensures checked[i] != "backups" {
      assert |checked[i]| == |"backups"| ==> checked[i][0] == 'd';
    }
    forall i | 0 <= i < |checked| ensures
      var p := cfg.archiveRoot + [checked[i]];
      (p in t' <==> p in t) && (p in t ==> t'[p] == t[p]) && (p !in t' ==> MissReason(t', p) == NotExist)
    {
      BesideBackups(t, t', cfg, checked[i]);
    }
    assert checked[0] == "site-state.json" && checked[1] == "redirects.json";
    assert checked[2] == "metadata" && checked[3] == "templates" && checked[4] == "domains";
  }

  lemma {:induction false} FreeAsBefore(t: Tree, t': Tree, dir: Path, names: seq<string>)
    requires OnlyDirsAdded(t, t', dir)
    ensures FirstFree(t', dir, names) == FirstFree(t, dir, names) && (Storable(t', dir, names) <==> Storable(t, dir, names))
  {
    forall n: string ensures dir + [n] in t' <==> dir + [n] in t {
      assert |dir + [n]| > |dir|;
    }
    if names != [] { FreeAsBefore(t, t', dir, names[1..]); }
  }

  lemma ClearAfterMkdir(t: Tree, t': Tree, p: Path)
    requires Closed(t') && OnlyDirsAdded(t, t', p) && p in t' && t'[p].Dir?
    ensures WayIsClear(t, p)
  {
    AboveAreClear(t', p);
  }

  // A backup touches nothing but the backups directory, its ancestors and files of its own.
  ghost predicate OnlyTouchedBackups(t: Tree, t': Tree, dir: Path, names: seq<string>) {
    && (forall p :: p in t ==> p in t' && (t'[p] == t[p] || (IsBackupFile(dir, names, p) && !t[p].Dir?)))
    && (forall p :: p in t' && p !in t ==> IsBackupFile(dir, names, p) || (p <= dir && t'[p] == Dir))
  }

  // Success: the archive holds every file once, and lies with its record in the backups
  // directory.  `encode` is the archive format.
  ghost predicate BackedUp(t: Tree, t': Tree, cfg: Config, zip: Zip, zipMode: nat, name: string, names: seq<string>,
                           bytes: string, json: string)
  {
    && (RootsApart(cfg) ==> IsBackup(t, BackupNames(t, cfg), zip.order, zip.files, zipMode))
    && (PlainRegions(t, cfg) ==> zip.extra == [])
    && FirstFree(t, BackupsDir(cfg), names) == Some(name)
    && exists t1 :: OnlyDirsAdded(t, t1, BackupsDir(cfg)) && t' == Stored(t1, BackupsDir(cfg), name, bytes, json)
  }

  lemma StoredBackup(t: Tree, t1: Tree, t': Tree, cfg: Config, zip: Zip, zipMode: nat, name: string, names: seq<string>,
                     bytes: string, json: string)
    requires OnlyDirsAdded(t, t1, BackupsDir(cfg)) && t' == Stored(t1, BackupsDir(cfg), name, bytes, json)
    requires RootsApart(cfg) ==> IsBackup(t1, BackupNames(t1, cfg), zip.order, zip.files, zipMode)
    requires PlainRegions(t1, cfg) ==> zip.extra == []
    requires FirstFree(t1, BackupsDir(cfg), names) == Some(name)
    ensures BackedUp(t, t', cfg, zip, zipMode, name, names, bytes, json)
  {
    DirsDoNotCount(t, t1, cfg, BackupsDir(cfg));
    FreeAsBefore(t, t1, BackupsDir(cfg), names);
  }

  lemma ReadyOnceMade(t: Tree, t1: Tree, cfg: Config, names: seq<string>)
    requires Closed(t1) && OnlyDirsAdded(t, t1, BackupsDir(cfg)) && BackupsDir(cfg) in t1 && t1[BackupsDir(cfg)].Dir?
    requires cfg.webRoot in t && !(cfg.webRoot <= BackupsDir(cfg))
    ensures Ready(t, cfg, names) <==> MetadataReadable(t1, cfg) && Storable(t1, BackupsDir(cfg), names)
  {
    ClearAfterMkdir(t, t1, BackupsDir(cfg));
    ReadableMeans(t, t1, cfg);
    FreeAsBefore(t, t1, BackupsDir(cfg), names);
  }

  lemma TouchedInTwo(t: Tree, t1: Tree, t': Tree, dir: Path, names: seq<string>)
    requires OnlyDirsAdded(t, t1, dir) && OnlyBackups(t1, t', dir, names)
    ensures OnlyTouchedBackups(t, t', dir, names)
  {
    forall p | p in t' && p !in t ensures IsBackupFile(dir, names, p) || (p <= dir && t'[p] == Dir) {
      if p in t1 { assert t1[p] == Dir; }
    }
  }

  // From the manifest to the record, with the backups directory in place.
  method FillArchive(disk: Disk, cfg: Config, manifest: string, zipMode: nat, encode: Zip -> string, json: string,
                     names: seq<string>)
    returns (err: Option<Errno>, zip: Zip, name: string)
    requires Closed(disk.tree) && BackupsDir(cfg) in disk.tree && disk.tree[BackupsDir(cfg)].Dir?
    modifies disk
    ensures Closed(disk.tree)
    ensures err == None ==>
      && (RootsApart(cfg) ==> IsBackup(old(disk.tree), BackupNames(old(disk.tree), cfg), zip.order, zip.files, zipMode))
      && (PlainRegions(old(disk.tree), cfg) ==> zip.extra == [])
      && FirstFree(old(disk.tree), BackupsDir(cfg), names) == Some(name)
      && disk.tree == Stored(old(disk.tree), BackupsDir(cfg), name, encode(zip), json)
    ensures OnlyBackups(old(disk.tree), disk.tree, BackupsDir(cfg), names)
    ensures old(disk.faults) <= disk.faults
    ensures disk.faults == old(disk.faults) ==>
      (err == None <==> cfg.webRoot in old(disk.tree) && MetadataReadable(old(disk.tree), cfg)
                        && Storable(old(disk.tree), BackupsDir(cfg), names))
  {
    name := "";
    err, zip := Collect(disk, cfg, manifest, zipMode);
    if err != None { return; }
    var bad := disk.Fault();  // closing and syncing the temporary file
    if bad { return Some(IoFailure), zip, name; }
    err, name := StoreArchive(disk, BackupsDir(cfg), encode(zip), json, names);
  }

  // createBackup.  `encode` is the archive format, `json` the record, `names` the random
  // names drawn for the archive.
  method CreateBackup(disk: Disk, cfg: Config, manifest: string, zipMode: nat, encode: Zip -> string, json: string,
                      names: seq<string>)
    returns (err: Option<Errno>, zip: Zip, name: string)
    requires Closed(disk.tree) && CleanConfig(cfg)
    modifies disk
    ensures Closed(disk.tree)
    ensures err == None ==>
      BackedUp(old(disk.tree), disk.tree, cfg, zip, zipMode, name, names, encode(zip), json)
    ensures err == None ==> !(cfg.webRoot <= BackupsDir(cfg))
    ensures OnlyTouchedBackups(old(disk.tree), disk.tree, BackupsDir(cfg), names)
    ensures old(disk.faults) <= disk.faults
    ensures disk.faults == old(disk.faults) ==> (err == None <==> Ready(old(disk.tree), cfg, names))
  {
    ghost var t0 := disk.tree;
    zip, name := Zip([], [], []), "";
    var node;
    err, node := disk.Lstat(cfg.webRoot);
    if err != None { return; }
    err := disk.MkdirAll(BackupsDir(cfg));
    ghost var t1 := disk.tree;
    if err != None { return; }
    InsideRootIsPrefix(cfg.webRoot, BackupsDir(cfg));
    if PathIsInsideRoot(cfg.webRoot, BackupsDir(cfg)) { return Some(Unsafe), zip, name; }
    err, zip, name := FillArchive(disk, cfg, manifest, zipMode, encode, json, names);
    TouchedInTwo(t0, t1, disk.tree, BackupsDir(cfg), names);
    ReadyOnceMade(t0, t1, cfg, names);
    if err == None { StoredBackup(t0, t1, disk.tree, cfg, zip, zipMode, name, names, encode(zip), json); }
  }

  // ---- the targets of a backup are the files it was taken from ----

  ghost predicate TargetsFollow(targets: seq<Target>, order: seq<Path>, files: seq<ArchiveFile>) {
    && |targets| == |order| && |files| == |order| + 1
    && forall i :: 0 <= i < |order| ==> targets[i].path == order[i] && targets[i].file == files[i + 1]
  }

  lemma {:induction false} ConcatSingles(found: seq<seq<Target>>)
    requires found != [] && found[0] == [] && forall i :: 0 < i < |found| ==> |found[i]| == 1
    ensures |Concat(found)| == |found| - 1
    ensures forall i :: 0 <= i < |found| - 1 ==> Concat(found)[i] == found[i + 1][0]
  {
    if |found| == 1 {
      assert Concat(found[..0]) == [];
    } else {
      ConcatSingles(found[..|found| - 1]);
    }
  }

  lemma TargetOfNamed(cfg: Config, p: Path, f: ArchiveFile)
    requires CleanConfig(cfg) && ArchivablePath(p) && ArchiveNameOf(cfg, p) == Some(f.name) && !f.isDir
    ensures RestoreRoot(cfg, f.name).Some?
    ensures TargetOf(cfg, f) == [Target(RestoreRoot(cfg, f.name).value, p, f)]
    ensures ValidEntryName(f.name) && RestoreTarget(cfg, f.name) == TargetAt(p)
  {
    ArchiveNameRoundTrip(cfg, p);
    NotTheManifest(cfg, f.name);
  }

  lemma FirstLetter(name: string, start: string)
    requires start != "" && start <= name
    ensures name != "" && name[0] == start[0]
  {
  }

  lemma TargetNamesStart(cfg: Config, name: string)
    requires RestoreTarget(cfg, name).TargetAt?
    ensures name != "" && name[0] in {'w', 'a'}
  {
    if "web/" <= name {
      FirstLetter(name, "web/");
    } else if UnderArchive(name) {
      FirstLetter(name, "archive/");
    }
  }

  lemma NotTheManifest(cfg: Config, name: string)
    requires RestoreTarget(cfg, name).TargetAt?
    ensures name != "sitebrush-backup.json"
  {
    TargetNamesStart(cfg, name);
  }

  ghost predicate AllArchivable(names: map<Path, string>) {
    forall p :: p in names ==> ArchivablePath(p)
  }

  lemma TargetsOfBackup(t: Tree, cfg: Config, order: seq<Path>, files: seq<ArchiveFile>, zipMode: nat)
    requires IsBackup(t, BackupNames(t, cfg), order, files, zipMode)
    requires AllArchivable(BackupNames(t, cfg)) && CleanConfig(cfg)
    ensures TargetsFollow(TargetsOf(cfg, files), order, files)
  {
    var found: seq<seq<Target>> := Found(cfg, files);
    assert found[0] == [];
    forall k | 0 < k < |found|
      ensures |found[k]| == 1 && found[k][0].path == order[k - 1] && found[k][0].file == files[k]
    {
      TargetOfNamed(cfg, order[k - 1], files[k]);
    }
    ConcatSingles(found);
  }

  // A backup never holds two targets of which one is above the other.
  lemma BackupTargetsArePrefixFree(t: Tree, names: map<Path, string>, order: seq<Path>, files: seq<ArchiveFile>, zipMode: nat,
                                   targets: seq<Target>)
    requires IsBackup(t, names, order, files, zipMode) && Closed(t) && TargetsFollow(targets, order, files)
    ensures DistinctTargets(targets) && PrefixFreeTargets(targets)
  {
    forall i, j | 0 <= i < |targets| && 0 <= j < |targets| ensures !Above(targets[i].path, targets[j].path) {
      if Above(order[i], order[j]) { AncestorsAreDirs(t, order[i], order[j]); }
    }
  }

  // Backup, any edits, then a successful restore: every backed file has its
  // content of backup time, every other file is as the edits left it, and
  // nothing else appears but directories.
  ghost predicate GivesBack(t0: Tree, names: map<Path, string>, t1: Tree, t2: Tree) {
    && (forall p :: p in names ==> p in t0 && p in t2 && t0[p].File? && t2[p].File? && t2[p].content == t0[p].content)
    && (forall p :: p in t1 && p !in names ==> p in t2 && t2[p] == t1[p])
    && (forall p :: p in t2 && p !in t1 && p !in names ==> t2[p].Dir?)
  }

  lemma AppliedGivesBack(t0: Tree, names: map<Path, string>, order: seq<Path>, files: seq<ArchiveFile>, zipMode: nat,
                         targets: seq<Target>, t1: Tree, t2: Tree)
    requires IsBackup(t0, names, order, files, zipMode) && TargetsFollow(targets, order, files)
    requires Applied(t1, t2, targets)
    ensures GivesBack(t0, names, t1, t2)
  {
    forall p | p in names
      ensures p in t0 && p in t2 && t0[p].File? && t2[p].File? && t2[p].content == t0[p].content
    {
      var i :| 0 <= i < |order| && order[i] == p;
      assert targets[i].path == p && targets[i].file == files[i + 1];
    }
    assert forall i :: 0 <= i < |targets| ==> order[i] in names && targets[i].path == order[i];
    assert forall p :: HasTarget(targets, p) ==> p in names;
  }

  lemma RestoreGivesBackBackup(t0: Tree, cfg: Config, order: seq<Path>, files: seq<ArchiveFile>, zipMode: nat, t1: Tree, t2: Tree)
    requires IsBackup(t0, BackupNames(t0, cfg), order, files, zipMode)
    requires AllArchivable(BackupNames(t0, cfg)) && CleanConfig(cfg) && Closed(t0)
    requires Applied(t1, t2, TargetsOf(cfg, files))
    ensures GivesBack(t0, BackupNames(t0, cfg), t1, t2)
    ensures PrefixFreeTargets(TargetsOf(cfg, files))
  {
    TargetsOfBackup(t0, cfg, order, files, zipMode);
    var targets := TargetsOf(cfg, files);
    AppliedGivesBack(t0, BackupNames(t0, cfg), order, files, zipMode, targets, t1, t2);
    BackupTargetsArePrefixFree(t0, BackupNames(t0, cfg), order, files, zipMode, targets);
  }
}
