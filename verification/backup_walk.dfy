// The walks of createBackup: which files of the tree go into the archive, and under
// which names.

module BackupWalk {
  import opened FilePaths
  import opened SlashNames
  import opened FileTree
  import opened ArchiveNames
  import opened BackupRestore

  // The regular files under the directories a backup walks, with their names.
  function BackupNames(t: Tree, cfg: Config): map<Path, string> {
    map p | p in t && t[p].File? && ArchiveNameOf(cfg, p).Some? :: ArchiveNameOf(cfg, p).value
  }

  function Manifest(content: string, zipMode: nat): ArchiveFile {
    ArchiveFile("sitebrush-backup.json", content, zipMode, false, false)
  }

  // What has been added to the archive: the manifest and the files walked, in that order,
  // and the regular files found in the place of a directory (which the zip holds in
  // between).
  datatype Zip = Zip(order: seq<Path>, files: seq<ArchiveFile>, extra: seq<ArchiveFile>)

  // The manifest, then files of the tree under their names, none twice.
  ghost predicate Lists(t: Tree, names: map<Path, string>, order: seq<Path>, files: seq<ArchiveFile>, zipMode: nat) {
    && |files| == |order| + 1 && files[0] == Manifest(files[0].content, zipMode)
    && (forall i :: 0 <= i < |order| ==>
          && order[i] in names && order[i] in t && t[order[i]].File?
          && files[i + 1] == ArchiveFile(names[order[i]], t[order[i]].content, zipMode, false, false))
    && (forall i, j :: 0 <= i < j < |order| ==> order[i] != order[j])
  }

  // The manifest, then every named file exactly once, in the order walked.
  ghost predicate IsBackup(t: Tree, names: map<Path, string>, order: seq<Path>, files: seq<ArchiveFile>, zipMode: nat) {
    && Lists(t, names, order, files, zipMode)
    && (forall p :: p in names ==> p in order)
  }

  lemma AddFile(t: Tree, names: map<Path, string>, order: seq<Path>, files: seq<ArchiveFile>, zipMode: nat, p: Path)
    requires Lists(t, names, order, files, zipMode) && p in names && p in t && t[p].File? && p !in order
    ensures Lists(t, names, order + [p], files + [ArchiveFile(names[p], t[p].content, zipMode, false, false)], zipMode)
  {
  }

  // ---- walking a directory ----

  // `seen` is what a walk from the root has passed, `todo` where it still has to go.
  ghost predicate Frontier(t: Tree, root: Path, todo: seq<Path>, seen: set<Path>) {
    && seen <= t.Keys
    && (forall i :: 0 <= i < |todo| ==> todo[i] in t && root <= todo[i])
    && (forall i, j :: 0 <= i < |todo| && 0 <= j < |todo| && i != j ==> !(todo[i] <= todo[j]))
    && (forall p :: p in seen ==> root <= p && forall i :: 0 <= i < |todo| ==> !(todo[i] <= p))
    && (forall p :: p in t && root <= p && p !in seen ==> exists i :: 0 <= i < |todo| && todo[i] <= p)
  }

  ghost predicate AreChildren(t: Tree, q: Path, kids: seq<Path>) {
    && (forall i :: 0 <= i < |kids| ==> kids[i] in t && kids[i] != [] && Parent(kids[i]) == q)
    && (forall i, j :: 0 <= i < j < |kids| ==> kids[i] != kids[j])
    && (forall p {:trigger p in kids} :: p in t && p != [] && Parent(p) == q ==> p in kids)
  }

  lemma ListingGivesChildren(t: Tree, q: Path, entries: seq<string>, kids: seq<Path>)
    requires IsListing(t, q, entries) && |kids| == |entries| && forall i :: 0 <= i < |kids| ==> kids[i] == q + [entries[i]]
    ensures AreChildren(t, q, kids)
  {
    forall p {:trigger p in kids} | p in t && p != [] && Parent(p) == q ensures p in kids {
      assert p == q + [p[|q|]];
      var i :| 0 <= i < |entries| && entries[i] == p[|q|];
      assert kids[i] == p;
    }
    forall i | 0 <= i < |kids| ensures kids[i] in t && kids[i] != [] && Parent(kids[i]) == q {
      assert entries[i] in entries;
    }
    forall i, j | 0 <= i < j < |kids| ensures kids[i] != kids[j] {
      assert kids[i][|q|] != kids[j][|q|];
    }
  }

  lemma KidsStandApart(t: Tree, root: Path, todo: seq<Path>, seen: set<Path>, kids: seq<Path>)
    requires Frontier(t, root, todo, seen) && todo != [] && AreChildren(t, todo[0], kids)
    ensures var next := kids + todo[1..];
      forall i, j :: 0 <= i < |next| && 0 <= j < |next| && i != j ==> !(next[i] <= next[j])
  {
    var q, next := todo[0], kids + todo[1..];
    forall i, j | 0 <= i < |next| && 0 <= j < |next| && i != j ensures !(next[i] <= next[j]) {
      if i >= |kids| && j < |kids| {
        var r := todo[i - |kids| + 1];
        assert next[i] == r && !(r <= q) && !(q <= r);
        PrefixOfParent(r, kids[j]);
      } else if i < |kids| && j >= |kids| {
        assert next[j] == todo[j - |kids| + 1];
        assert q == kids[i][..|q|];
      } else if i >= |kids| {
        assert next[i] == todo[i - |kids| + 1] && next[j] == todo[j - |kids| + 1];
      }
    }
  }

  lemma KidsCover(t: Tree, root: Path, todo: seq<Path>, seen: set<Path>, kids: seq<Path>, p: Path)
    requires Closed(t) && Frontier(t, root, todo, seen) && todo != [] && AreChildren(t, todo[0], kids)
    requires p in t && root <= p && p !in seen && p != todo[0]
    ensures exists i :: 0 <= i < |kids + todo[1..]| && (kids + todo[1..])[i] <= p
  {
    var q, next := todo[0], kids + todo[1..];
    var i :| 0 <= i < |todo| && todo[i] <= p;
    if i > 0 {
      assert next[|kids| + i - 1] == todo[i];
    } else {
      var c := p[..|q| + 1];
      assert Parent(c) == q && c <= p;
      if c != p { AncestorsAreDirs(t, c, p); }
      assert c in kids;
      var k :| 0 <= k < |kids| && kids[k] == c;
      assert next[k] == c;
    }
  }

  lemma SeenStaysBehind(t: Tree, root: Path, todo: seq<Path>, seen: set<Path>, kids: seq<Path>, p: Path, i: nat)
    requires Frontier(t, root, todo, seen) && todo != [] && AreChildren(t, todo[0], kids)
    requires p in seen + {todo[0]} && i < |kids + todo[1..]|
    ensures !((kids + todo[1..])[i] <= p)
  {
    var q := todo[0];
    if i >= |kids| {
      assert (kids + todo[1..])[i] == todo[i - |kids| + 1];
    } else {
      assert q == Parent(kids[i]) && q <= kids[i] && |q| < |kids[i]|;
    }
  }

  // Going into a directory: its children take its place.
  lemma Descend(t: Tree, root: Path, todo: seq<Path>, seen: set<Path>, kids: seq<Path>)
    requires Closed(t) && Frontier(t, root, todo, seen) && todo != [] && AreChildren(t, todo[0], kids)
    ensures Frontier(t, root, kids + todo[1..], seen + {todo[0]})
  {
    var next, seen' := kids + todo[1..], seen + {todo[0]};
    KidsStandApart(t, root, todo, seen, kids);
    forall p | p in seen' ensures root <= p && forall i :: 0 <= i < |next| ==> !(next[i] <= p) {
      forall i | 0 <= i < |next| ensures !(next[i] <= p) { SeenStaysBehind(t, root, todo, seen, kids, p, i); }
    }
    forall p | p in t && root <= p && p !in seen' ensures exists i :: 0 <= i < |next| && next[i] <= p {
      KidsCover(t, root, todo, seen, kids, p);
    }
    forall i | 0 <= i < |next| ensures next[i] in t && root <= next[i] {
      if i < |kids| { BelowParent(root, kids[i]); } else { assert next[i] == todo[i - |kids| + 1]; }
    }
  }

  // filepath.WalkDir: every regular file at or below the root, each once.
  method WalkFiles(disk: Disk, root: Path) returns (err: Option<Errno>, files: seq<Path>)
    requires Closed(disk.tree)
    modifies disk`faults
    ensures err == None ==>
      && (forall p :: p in files <==> root <= p && p in disk.tree && disk.tree[p].File?)
      && (forall i, j :: 0 <= i < j < |files| ==> files[i] != files[j])
    ensures err == None ==> root in disk.tree && disk.faults == old(disk.faults)
    ensures old(disk.faults) <= disk.faults
    ensures disk.faults == old(disk.faults) ==> (err == None <==> root in disk.tree)
  {
    files := [];
    var e, node := disk.Lstat(root);
    if e != None { return e, []; }
    var todo := [root];
    ghost var seen: set<Path> := {};
    assert todo[0] == root;
    while todo != []
      invariant disk.tree == old(disk.tree) && disk.faults == old(disk.faults)
      invariant Frontier(disk.tree, root, todo, seen)
      invariant forall p :: p in files <==> p in seen && disk.tree[p].File?
      invariant forall i, j :: 0 <= i < j < |files| ==> files[i] != files[j]
      decreases disk.tree.Keys - seen
    {
      var q, kids := todo[0], [];
      assert q !in seen;
      if disk.tree[q].Dir? {
        var e', entries := disk.ReadDir(q);
        if e' != None { return e', []; }
        kids := seq(|entries|, i requires 0 <= i < |entries| => q + [entries[i]]);
        ListingGivesChildren(disk.tree, q, entries, kids);
      } else if disk.tree[q].File? {
        files := files + [q];
      }
      Descend(disk.tree, root, todo, seen, kids);
      todo, seen := kids + todo[1..], seen + {q};
    }
    err := None;
  }

  // ---- the regions of a backup ----

  // One directory or state file that createBackup takes.
  predicate IsRegion(region: Path) {
    || region in {["web"], ["archive", "metadata"], ["archive", "templates"]}
    || IsStateFile(region) || IsHostRegion(region)
  }

  predicate IsStateFile(region: Path) {
    region in {["archive", "site-state.json"], ["archive", "redirects.json"]}
  }

  predicate IsHostRegion(region: Path) {
    |region| == 4 && region[..2] == ["archive", "domains"] && region[3] in {"media", "media-metadata"}
  }

  // Where it lies.
  function RegionRoot(cfg: Config, region: Path): Path {
    if region == ["web"] || region == [] then cfg.webRoot else cfg.archiveRoot + region[1..]
  }

  // Which of them the file at p belongs to.
  function RegionOf(cfg: Config, p: Path): Path
    requires ArchiveNameOf(cfg, p).Some?
  {
    if Above(cfg.webRoot, p) then ["web"]
    else
      var rel := p[|cfg.archiveRoot|..];
      ["archive"] + if WalkedFrom(rel) == Some(0) then rel else rel[..WalkedFrom(rel).value]
  }

  // No file of the web root is also one of the archive's.
  ghost predicate RootsApart(cfg: Config) {
    forall rel: Path :: WalkedFrom(rel).Some? ==> !Above(cfg.webRoot, cfg.archiveRoot + rel)
  }

  // The name a walk of the region gives the file at p.
  function WalkedName(cfg: Config, region: Path, p: Path): string
    requires RegionRoot(cfg, region) <= p
  {
    JoinNames(Join(region), Join(p[|RegionRoot(cfg, region)|..]))
  }

  lemma WalkedFromRegion(region: Path, rest: Path)
    requires IsRegion(region) && region != ["web"] && (rest == [] <==> IsStateFile(region))
    ensures WalkedFrom(region[1..] + rest) == Some(if rest == [] then 0 else |region| - 1)
    ensures region[0] == "archive"
  {
    assert [region[0]] + region[1..] == region;
    if IsHostRegion(region) { assert region[0] == region[..2][0] && region[1] == region[..2][1]; }
  }

  lemma NameBelowArchive(cfg: Config, rel: Path, k: nat)
    requires RootsApart(cfg) && WalkedFrom(rel) == Some(k)
    ensures ArchiveNameOf(cfg, cfg.archiveRoot + rel) == Some(JoinNames(Join(["archive"] + rel[..k]), Join(rel[k..])))
    ensures RegionOf(cfg, cfg.archiveRoot + rel) == ["archive"] + if k == 0 then rel else rel[..k]
  {
    assert (cfg.archiveRoot + rel)[|cfg.archiveRoot|..] == rel;
  }

  lemma CutAtRegion(root: Path, region: Path, rest: Path)
    requires region != [] && region[0] == "archive"
    ensures var rel := region[1..] + rest;
      && root + region[1..] + rest == root + rel
      && rel[..|region| - 1] == region[1..] && rel[|region| - 1..] == rest && ["archive"] + region[1..] == region
  {
  }

  // A walk of a region meets exactly the files that belong to it, under their names.
  lemma RegionMeetsItsFiles(cfg: Config, region: Path, p: Path)
    requires RootsApart(cfg) && IsRegion(region) && !IsStateFile(region) && Above(RegionRoot(cfg, region), p)
    ensures ArchiveNameOf(cfg, p) == Some(WalkedName(cfg, region, p)) && RegionOf(cfg, p) == region
  {
    if region != ["web"] {
      var rest := p[|RegionRoot(cfg, region)|..];
      WalkedFromRegion(region, rest);
      MetBelowArchive(cfg, region, rest);
      assert p == RegionRoot(cfg, region) + rest;
    }
  }

  lemma MetBelowArchive(cfg: Config, region: Path, rest: Path)
    requires RootsApart(cfg) && |region| > 1 && region[0] == "archive"
    requires WalkedFrom(region[1..] + rest) == Some(|region| - 1)
    ensures var p := cfg.archiveRoot + region[1..] + rest;
      ArchiveNameOf(cfg, p) == Some(JoinNames(Join(region), Join(rest))) && RegionOf(cfg, p) == region
  {
    CutAtRegion(cfg.archiveRoot, region, rest);
    NameBelowArchive(cfg, region[1..] + rest, |region| - 1);
  }

  lemma StateFileIsItself(cfg: Config, region: Path)
    requires RootsApart(cfg) && IsStateFile(region)
    ensures var p := RegionRoot(cfg, region);
      ArchiveNameOf(cfg, p) == Some(JoinNames("archive", Join(region[1..]))) && RegionOf(cfg, p) == region
  {
    WalkedFromRegion(region, []);
    CutAtRegion(cfg.archiveRoot, region, []);
    NameBelowArchive(cfg, region[1..] + [], 0);
    assert region[1..] + [] == region[1..] && ["archive"] + region[1..][..0] == ["archive"] && region[1..][0..] == region[1..];
  }

  lemma ArchivedRegion(rel: Path)
    requires WalkedFrom(rel).Some?
    ensures var region := ["archive"] + if WalkedFrom(rel) == Some(0) then rel else rel[..WalkedFrom(rel).value];
      && IsRegion(region) && (IsStateFile(region) <==> region[1..] == rel) && region[1..] <= rel && region != ["web"]
  {
    if WalkedFrom(rel) == Some(0) {
      assert ["archive"] + rel == ["archive", rel[0]];
    } else if WalkedFrom(rel) == Some(1) {
      assert ["archive"] + rel[..1] == ["archive", rel[0]];
    } else {
      assert ["archive"] + rel[..3] == ["archive", "domains", rel[1], rel[2]];
    }
  }

  lemma RegionContains(cfg: Config, p: Path)
    requires ArchiveNameOf(cfg, p).Some?
    ensures var region := RegionOf(cfg, p);
      IsRegion(region) && RegionRoot(cfg, region) <= p && (RegionRoot(cfg, region) == p <==> IsStateFile(region))
  {
    if !Above(cfg.webRoot, p) {
      var rel := p[|cfg.archiveRoot|..];
      ArchivedRegion(rel);
      assert p == cfg.archiveRoot + rel && RegionRoot(cfg, RegionOf(cfg, p)) == cfg.archiveRoot + RegionOf(cfg, p)[1..];
    }
  }

  lemma RegionHoldsItsFiles(t: Tree, cfg: Config, p: Path)
    requires Closed(t) && p in t && ArchiveNameOf(cfg, p).Some?
    ensures var region := RegionOf(cfg, p);
      var root := RegionRoot(cfg, region);
      && IsRegion(region) && root <= p && root in t && (root == p <==> IsStateFile(region))
      && (root != p ==> t[root].Dir?)
  {
    RegionContains(cfg, p);
    var root := RegionRoot(cfg, RegionOf(cfg, p));
    if root != p { AncestorsAreDirs(t, root, p); }
  }

  // The files of the regions in `done` are in the archive, each exactly once.
  ghost predicate Holds(t: Tree, cfg: Config, done: set<Path>, zip: Zip, zipMode: nat) {
    RootsApart(cfg) ==>
      && Lists(t, BackupNames(t, cfg), zip.order, zip.files, zipMode)
      && (forall p :: p in zip.order <==> p in BackupNames(t, cfg) && RegionOf(cfg, p) in done)
  }

  // After a walk came across the files in `found`.
  ghost predicate Walked(t: Tree, cfg: Config, done: set<Path>, root: Path, found: seq<Path>, zip: Zip, zipMode: nat) {
    RootsApart(cfg) ==>
      && Lists(t, BackupNames(t, cfg), zip.order, zip.files, zipMode)
      && (forall p :: p in zip.order <==>
            p in BackupNames(t, cfg) && (RegionOf(cfg, p) in done || (p in found && p != root)))
  }

  lemma WalkedAll(t: Tree, cfg: Config, done: set<Path>, region: Path, found: seq<Path>, zip: Zip, zipMode: nat)
    requires Closed(t) && IsRegion(region) && !IsStateFile(region)
    requires Walked(t, cfg, done, RegionRoot(cfg, region), found, zip, zipMode)
    requires forall p :: p in found <==> RegionRoot(cfg, region) <= p && p in t && t[p].File?
    ensures Holds(t, cfg, done + {region}, zip, zipMode)
  {
    if RootsApart(cfg) {
      forall p | p in BackupNames(t, cfg)
        ensures RegionOf(cfg, p) == region <==> p in found && p != RegionRoot(cfg, region)
      {
        RegionHoldsItsFiles(t, cfg, p);
        if Above(RegionRoot(cfg, region), p) { RegionMeetsItsFiles(cfg, region, p); }
      }
    }
  }

  lemma WalkedOneMore(t: Tree, cfg: Config, done: set<Path>, region: Path, found: seq<Path>, zip: Zip, zipMode: nat, p: Path)
    requires IsRegion(region) && !IsStateFile(region) && region !in done && p !in found
    requires Walked(t, cfg, done, RegionRoot(cfg, region), found, zip, zipMode)
    requires Above(RegionRoot(cfg, region), p) && p in t && t[p].File?
    ensures var file := ArchiveFile(WalkedName(cfg, region, p), t[p].content, zipMode, false, false);
      Walked(t, cfg, done, RegionRoot(cfg, region), found + [p],
             Zip(zip.order + [p], zip.files + [file], zip.extra), zipMode)
  {
    if RootsApart(cfg) {
      RegionMeetsItsFiles(cfg, region, p);
      AddFile(t, BackupNames(t, cfg), zip.order, zip.files, zipMode, p);
    }
  }

  // addFileToZip on the file a walk came across.  A regular file in the place of the
  // directory goes in under the directory's own name.
  method AddWalked(disk: Disk, cfg: Config, region: Path, ghost done: set<Path>, ghost found: seq<Path>, p: Path,
                   zip: Zip, zipMode: nat)
    returns (err: Option<Errno>, zip': Zip)
    requires IsRegion(region) && !IsStateFile(region) && region !in done && p !in found
    requires RegionRoot(cfg, region) <= p && p in disk.tree && disk.tree[p].File?
    requires Walked(disk.tree, cfg, done, RegionRoot(cfg, region), found, zip, zipMode)
    modifies disk`faults
    ensures err == None ==> Walked(disk.tree, cfg, done, RegionRoot(cfg, region), found + [p], zip', zipMode)
    ensures p != RegionRoot(cfg, region) ==> zip'.extra == zip.extra
    ensures old(disk.faults) <= disk.faults && (err == None <==> disk.faults == old(disk.faults))
  {
    var root := RegionRoot(cfg, region);
    var content;
    err, content := disk.ReadFile(p);
    if err != None { return err, zip; }
    if p == root {
      zip' := zip.(extra := zip.extra + [ArchiveFile(Join(region), content, zipMode, false, false)]);
    } else {
      WalkedOneMore(disk.tree, cfg, done, region, found, zip, zipMode, p);
      var file := ArchiveFile(WalkedName(cfg, region, p), content, zipMode, false, false);
      zip' := Zip(zip.order + [p], zip.files + [file], zip.extra);
    }
  }

  // addDirectoryToZip; zipMode is the mode the archive format reports for every entry.
  method AddDirectory(disk: Disk, cfg: Config, region: Path, ghost done: set<Path>, zip: Zip, zipMode: nat)
    returns (err: Option<Errno>, zip': Zip)
    requires Closed(disk.tree) && IsRegion(region) && !IsStateFile(region) && region !in done
    requires Holds(disk.tree, cfg, done, zip, zipMode)
    modifies disk`faults
    ensures err == None ==> Holds(disk.tree, cfg, done + {region}, zip', zipMode)
    ensures !(RegionRoot(cfg, region) in disk.tree && disk.tree[RegionRoot(cfg, region)].File?) ==> zip'.extra == zip.extra
    ensures err == None ==> RegionRoot(cfg, region) in disk.tree && disk.faults == old(disk.faults)
    ensures old(disk.faults) <= disk.faults
    ensures disk.faults == old(disk.faults) ==> (err == None <==> RegionRoot(cfg, region) in disk.tree)
  {
    zip' := zip;
    var root := RegionRoot(cfg, region);
    var e, found := WalkFiles(disk, root);
    if e != None { return e, zip; }
    var i := 0;
    while i < |found|
      invariant i <= |found| && disk.tree == old(disk.tree) && disk.faults == old(disk.faults)
      invariant Walked(disk.tree, cfg, done, root, found[..i], zip', zipMode)
      invariant disk.tree[root].File? || zip'.extra == zip.extra
    {
      assert found[i] in found && found[i] !in found[..i] && found[..i + 1] == found[..i] + [found[i]];
      err, zip' := AddWalked(disk, cfg, region, done, found[..i], found[i], zip', zipMode);
      if err != None { return; }
      i := i + 1;
    }
    assert found[..i] == found;
    WalkedAll(disk.tree, cfg, done, region, found, zip', zipMode);
    err := None;
  }

  lemma NothingThere(t: Tree, cfg: Config, done: set<Path>, zip: Zip, zipMode: nat, region: Path)
    requires Closed(t) && Holds(t, cfg, done, zip, zipMode) && RegionRoot(cfg, region) !in t
    ensures Holds(t, cfg, done + {region}, zip, zipMode)
  {
    forall p | p in BackupNames(t, cfg) ensures RegionOf(cfg, p) != region {
      RegionHoldsItsFiles(t, cfg, p);
    }
  }

  // addDirectoryToZipIfExists
  method AddDirectoryIfExists(disk: Disk, cfg: Config, region: Path, ghost done: set<Path>, zip: Zip, zipMode: nat)
    returns (err: Option<Errno>, zip': Zip)
    requires Closed(disk.tree) && IsRegion(region) && !IsStateFile(region) && region !in done
    requires Holds(disk.tree, cfg, done, zip, zipMode)
    modifies disk`faults
    ensures err == None ==> Holds(disk.tree, cfg, done + {region}, zip', zipMode)
    ensures !(RegionRoot(cfg, region) in disk.tree && disk.tree[RegionRoot(cfg, region)].File?) ==> zip'.extra == zip.extra
    ensures old(disk.faults) <= disk.faults && (err == None ==> disk.faults == old(disk.faults))
    ensures disk.faults == old(disk.faults) ==>
      (err == None <==> RegionRoot(cfg, region) in disk.tree || MissReason(disk.tree, RegionRoot(cfg, region)) == NotExist)
  {
    var e, _ := disk.Lstat(RegionRoot(cfg, region));
    if e == Some(NotExist) {
      NothingThere(disk.tree, cfg, done, zip, zipMode, region);
      return None, zip;
    }
    if e != None { return e, zip; }
    err, zip' := AddDirectory(disk, cfg, region, done, zip, zipMode);
  }

  lemma OneFile(t: Tree, cfg: Config, done: set<Path>, zip: Zip, zipMode: nat, region: Path)
    requires Closed(t) && Holds(t, cfg, done, zip, zipMode) && IsStateFile(region) && region !in done
    requires RegionRoot(cfg, region) in t && t[RegionRoot(cfg, region)].File?
    ensures var p := RegionRoot(cfg, region);
      var file := ArchiveFile(JoinNames("archive", Join(region[1..])), t[p].content, zipMode, false, false);
      Holds(t, cfg, done + {region}, Zip(zip.order + [p], zip.files + [file], zip.extra), zipMode)
  {
    if RootsApart(cfg) {
      var root := RegionRoot(cfg, region);
      StateFileIsItself(cfg, region);
      AddFile(t, BackupNames(t, cfg), zip.order, zip.files, zipMode, root);
      forall p | p in BackupNames(t, cfg) ensures RegionOf(cfg, p) == region <==> p == root {
        RegionHoldsItsFiles(t, cfg, p);
      }
    }
  }

  // addFileToZipIfExists: a directory in the place of the file cannot be read.
  method AddFileIfExists(disk: Disk, cfg: Config, region: Path, ghost done: set<Path>, zip: Zip, zipMode: nat)
    returns (err: Option<Errno>, zip': Zip)
    requires Closed(disk.tree) && IsStateFile(region) && region !in done
    requires Holds(disk.tree, cfg, done, zip, zipMode)
    modifies disk`faults
    ensures err == None ==> Holds(disk.tree, cfg, done + {region}, zip', zipMode) && zip'.extra == zip.extra
    ensures old(disk.faults) <= disk.faults
    ensures disk.faults == old(disk.faults) ==> (err == None <==> FileOrMissing(disk.tree, RegionRoot(cfg, region)))
    ensures err == None ==> FileOrMissing(disk.tree, RegionRoot(cfg, region)) && disk.faults == old(disk.faults)
  {
    var p := RegionRoot(cfg, region);
    var e, _ := disk.Lstat(p);
    if e == Some(NotExist) {
      NothingThere(disk.tree, cfg, done, zip, zipMode, region);
      return None, zip;
    }
    if e != None { return e, zip; }
    var e', content := disk.ReadFile(p);
    if e' != None { return e', zip; }
    OneFile(disk.tree, cfg, done, zip, zipMode, region);
    var file := ArchiveFile(JoinNames("archive", Join(region[1..])), content, zipMode, false, false);
    err, zip' := None, Zip(zip.order + [p], zip.files + [file], zip.extra);
  }

  ghost predicate FileOrMissing(t: Tree, p: Path) {
    if p in t then t[p].File? else MissReason(t, p) == NotExist
  }

  // ---- the directories of the hosts ----

  function DomainsDir(cfg: Config): Path {
    cfg.archiveRoot + ["domains"]
  }

  function HostRegion(host: string, kind: string): Path {
    ["archive", "domains", host, kind]
  }

  predicate IsKind(kind: string) {
    kind in {"media", "media-metadata"}
  }

  lemma HostRegionLies(cfg: Config, host: string, kind: string)
    requires IsKind(kind)
    ensures IsHostRegion(HostRegion(host, kind)) && IsRegion(HostRegion(host, kind)) && !IsStateFile(HostRegion(host, kind))
    ensures RegionRoot(cfg, HostRegion(host, kind)) == DomainsDir(cfg) + [host] + [kind]
  {
    assert HostRegion(host, kind)[..2] == ["archive", "domains"];
    assert HostRegion(host, kind)[1..] == ["domains"] + [host] + [kind];
    assert cfg.archiveRoot + (["domains"] + [host] + [kind]) == DomainsDir(cfg) + [host] + [kind];
  }

  lemma HostOf(region: Path)
    requires IsHostRegion(region)
    ensures IsKind(region[3]) && region == HostRegion(region[2], region[3])
  {
    assert region[0] == region[..2][0] && region[1] == region[..2][1];
  }

  // The regions of these hosts, if their directories are there.
  ghost predicate HostsDone(t: Tree, cfg: Config, done: set<Path>, hosts: seq<string>) {
    && (forall h, kind :: h in hosts && IsKind(kind) && DomainsDir(cfg) + [h] in t && t[DomainsDir(cfg) + [h]].Dir? ==>
          HostRegion(h, kind) in done)
    && (forall h, kind :: HostRegion(h, kind) in done ==> h in hosts)
  }

  lemma HostsLieBelow(t: Tree, cfg: Config, p: Path)
    requires Closed(t) && p in BackupNames(t, cfg) && IsHostRegion(RegionOf(cfg, p))
    ensures var region := RegionOf(cfg, p);
      var host := DomainsDir(cfg) + [region[2]];
      && IsKind(region[3]) && region == HostRegion(region[2], region[3])
      && DomainsDir(cfg) in t && host in t && t[host].Dir?
  {
    var region := RegionOf(cfg, p);
    HostOf(region);
    HostRegionLies(cfg, region[2], region[3]);
    RegionHoldsItsFiles(t, cfg, p);
    var root := RegionRoot(cfg, region);
    assert root[..|root| - 1] == DomainsDir(cfg) + [region[2]] && root[..|root| - 2] == DomainsDir(cfg);
    AncestorsAreDirs(t, root[..|root| - 1], root);
    AncestorsAreDirs(t, root[..|root| - 2], root);
  }

  lemma HostsCovered(t: Tree, cfg: Config, done: set<Path>, hosts: seq<string>)
    requires Closed(t) && HostsDone(t, cfg, done, hosts)
    requires DomainsDir(cfg) !in t || forall h :: DomainsDir(cfg) + [h] in t ==> h in hosts
    ensures forall p :: p in BackupNames(t, cfg) && IsHostRegion(RegionOf(cfg, p)) ==> RegionOf(cfg, p) in done
  {
    forall p | p in BackupNames(t, cfg) && IsHostRegion(RegionOf(cfg, p)) ensures RegionOf(cfg, p) in done {
      HostsLieBelow(t, cfg, p);
    }
  }

  // No regular file stands in the place of a walked directory.
  ghost predicate PlainRegions(t: Tree, cfg: Config) {
    forall region :: IsRegion(region) && !IsStateFile(region) && RegionRoot(cfg, region) in t ==>
      !t[RegionRoot(cfg, region)].File?
  }

  ghost predicate DirOrMissing(t: Tree, p: Path) {
    if p in t then t[p].Dir? else MissReason(t, p) == NotExist
  }

  ghost function WithHost(done: set<Path>, host: string): set<Path> {
    done + {HostRegion(host, "media")} + {HostRegion(host, "media-metadata")}
  }

  lemma OneMoreHost(t: Tree, cfg: Config, done: set<Path>, hosts: seq<string>, host: string)
    requires HostsDone(t, cfg, done, hosts)
    ensures HostsDone(t, cfg, WithHost(done, host), hosts + [host])
  {
    forall h, kind | HostRegion(h, kind) in WithHost(done, host) ensures h in hosts + [host] {
      assert HostRegion(h, kind)[2] == h;
    }
  }

  // One host's two directories.
  method AddHost(disk: Disk, cfg: Config, host: string, ghost done: set<Path>, zip: Zip, zipMode: nat)
    returns (err: Option<Errno>, zip': Zip)
    requires Closed(disk.tree) && Holds(disk.tree, cfg, done, zip, zipMode)
    requires DomainsDir(cfg) + [host] in disk.tree && disk.tree[DomainsDir(cfg) + [host]].Dir?
    requires HostRegion(host, "media") !in done && HostRegion(host, "media-metadata") !in done
    modifies disk`faults
    ensures err == None ==> Holds(disk.tree, cfg, WithHost(done, host), zip', zipMode)
    ensures PlainRegions(disk.tree, cfg) ==> zip'.extra == zip.extra
    ensures old(disk.faults) <= disk.faults && (err == None <==> disk.faults == old(disk.faults))
  {
    var media, metadata := HostRegion(host, "media"), HostRegion(host, "media-metadata");
    HostRegionLies(cfg, host, "media");
    HostRegionLies(cfg, host, "media-metadata");
    assert Parent(RegionRoot(cfg, media)) == Parent(RegionRoot(cfg, metadata)) == DomainsDir(cfg) + [host];
    err, zip' := AddDirectoryIfExists(disk, cfg, media, done, zip, zipMode);
    if err != None { return; }
    assert metadata[3] != media[3];
    err, zip' := AddDirectoryIfExists(disk, cfg, metadata, done + {media}, zip', zipMode);
  }

  lemma NoHostDone(t: Tree, cfg: Config, done: set<Path>)
    requires forall region :: region in done ==> |region| < 4
    ensures HostsDone(t, cfg, done, [])
  {
  }

  // The loop over the entries of the domains directory.
  method AddHosts(disk: Disk, cfg: Config, ghost done: set<Path>, zip: Zip, zipMode: nat)
    returns (err: Option<Errno>, zip': Zip, ghost done': set<Path>)
    requires Closed(disk.tree) && Holds(disk.tree, cfg, done, zip, zipMode)
    requires forall region :: region in done ==> |region| < 4
    modifies disk`faults
    ensures err == None ==> done <= done' && Holds(disk.tree, cfg, done', zip', zipMode)
    ensures err == None ==>
      forall p :: p in BackupNames(disk.tree, cfg) && IsHostRegion(RegionOf(cfg, p)) ==> RegionOf(cfg, p) in done'
    ensures PlainRegions(disk.tree, cfg) ==> zip'.extra == zip.extra
    ensures old(disk.faults) <= disk.faults
    ensures disk.faults == old(disk.faults) ==> (err == None <==> DirOrMissing(disk.tree, DomainsDir(cfg)))
    ensures err == None ==> DirOrMissing(disk.tree, DomainsDir(cfg)) && disk.faults == old(disk.faults)
  {
    zip', done' := zip, done;
    NoHostDone(disk.tree, cfg, done);
    var e, entries := disk.ReadDir(DomainsDir(cfg));
    if e == Some(NotExist) {
      HostsCovered(disk.tree, cfg, done, []);
      return None, zip, done;
    }
    if e != None { return e, zip, done; }
    var i := 0;
    while i < |entries|
      invariant i <= |entries| && disk.tree == old(disk.tree) && disk.faults == old(disk.faults)
      invariant done <= done' && Holds(disk.tree, cfg, done', zip', zipMode)
      invariant HostsDone(disk.tree, cfg, done', entries[..i])
      invariant PlainRegions(disk.tree, cfg) ==> zip'.extra == zip.extra
    {
      var host := entries[i];
      assert host in entries && host !in entries[..i] && entries[..i + 1] == entries[..i] + [host];
      if disk.tree[DomainsDir(cfg) + [host]].Dir? {
        err, zip' := AddHost(disk, cfg, host, done', zip', zipMode);
        if err != None { return; }
        OneMoreHost(disk.tree, cfg, done', entries[..i], host);
        done' := WithHost(done', host);
      }
      i := i + 1;
    }
    assert entries[..i] == entries;
    HostsCovered(disk.tree, cfg, done', entries);
    err := None;
  }

  // ---- all of them ----

  // What lets addSafeArchiveMetadataToZip through.
  ghost predicate MetadataReadable(t: Tree, cfg: Config) {
    && FileOrMissing(t, cfg.archiveRoot + ["site-state.json"]) && FileOrMissing(t, cfg.archiveRoot + ["redirects.json"])
    && MissingIsPlain(t, cfg.archiveRoot + ["metadata"]) && MissingIsPlain(t, cfg.archiveRoot + ["templates"])
    && DirOrMissing(t, DomainsDir(cfg))
  }

  ghost predicate MissingIsPlain(t: Tree, p: Path) {
    p !in t ==> MissReason(t, p) == NotExist
  }

  lemma RegionPlaces(cfg: Config, name: string)
    ensures RegionRoot(cfg, ["archive", name]) == cfg.archiveRoot + [name]
  {
    assert ["archive", name][1..] == [name];
  }

  lemma PlainRegion(cfg: Config, name: string)
    requires name in {"metadata", "templates"}
    ensures IsRegion(["archive", name]) && !IsStateFile(["archive", name])
    ensures RegionRoot(cfg, ["archive", name]) == cfg.archiveRoot + [name]
  {
    RegionPlaces(cfg, name);
    assert ["archive", name][1] == name;
  }

  ghost predicate BaseDone(done: set<Path>) {
    && ["web"] in done && ["archive", "site-state.json"] in done && ["archive", "redirects.json"] in done
    && ["archive", "metadata"] in done && ["archive", "templates"] in done
  }

  // The regions done before the state files, the directories and the hosts.
  ghost function WebDone(): (done: set<Path>)
    ensures ["archive", "site-state.json"] !in done && ["archive", "redirects.json"] !in done
  {
    assert |["web"]| == 1;
    {["web"]}
  }

  ghost function StateDone(): (done: set<Path>)
    ensures ["archive", "metadata"] !in done && ["archive", "templates"] !in done
    ensures forall region :: region in done ==> |region| < 4
  {
    assert ["archive", "metadata"][1] !in {"site-state.json", "redirects.json"};
    assert ["archive", "templates"][1] !in {"site-state.json", "redirects.json"};
    WebDone() + {["archive", "site-state.json"], ["archive", "redirects.json"]}
  }

  ghost function BeforeHosts(): (done: set<Path>)
    ensures BaseDone(done) && forall region :: region in done ==> |region| < 4
  {
    StateDone() + {["archive", "metadata"]} + {["archive", "templates"]}
  }

  lemma AllRegionsDone(t: Tree, cfg: Config, done: set<Path>, zip: Zip, zipMode: nat)
    requires Closed(t) && Holds(t, cfg, done, zip, zipMode) && RootsApart(cfg) && BaseDone(done)
    requires forall p :: p in BackupNames(t, cfg) && IsHostRegion(RegionOf(cfg, p)) ==> RegionOf(cfg, p) in done
    ensures IsBackup(t, BackupNames(t, cfg), zip.order, zip.files, zipMode)
  {
    forall p | p in BackupNames(t, cfg) ensures p in zip.order {
      RegionHoldsItsFiles(t, cfg, p);
    }
  }

  // The two state files, in the arbitrary order of a Go map.
  method AddStateFiles(disk: Disk, cfg: Config, zip: Zip, zipMode: nat) returns (err: Option<Errno>, zip': Zip)
    requires Closed(disk.tree) && Holds(disk.tree, cfg, WebDone(), zip, zipMode)
    modifies disk`faults
    ensures err == None ==> Holds(disk.tree, cfg, StateDone(), zip', zipMode) && zip'.extra == zip.extra
    ensures old(disk.faults) <= disk.faults && (err == None ==> disk.faults == old(disk.faults))
    ensures disk.faults == old(disk.faults) ==>
      (err == None <==> FileOrMissing(disk.tree, cfg.archiveRoot + ["site-state.json"])
                        && FileOrMissing(disk.tree, cfg.archiveRoot + ["redirects.json"]))
  {
    var first, second := "site-state.json", "redirects.json";
    if * { first, second := second, first; }
    RegionPlaces(cfg, first);
    RegionPlaces(cfg, second);
    assert ["archive", first][1] == first && ["archive", second][1] == second;
    err, zip' := AddFileIfExists(disk, cfg, ["archive", first], WebDone(), zip, zipMode);
    if err != None { return; }
    err, zip' := AddFileIfExists(disk, cfg, ["archive", second], WebDone() + {["archive", first]}, zip', zipMode);
    assert WebDone() + {["archive", first]} + {["archive", second]} == StateDone();
  }

  // The metadata and template directories.
  method AddPlainDirectories(disk: Disk, cfg: Config, zip: Zip, zipMode: nat) returns (err: Option<Errno>, zip': Zip)
    requires Closed(disk.tree) && Holds(disk.tree, cfg, StateDone(), zip, zipMode)
    modifies disk`faults
    ensures err == None ==> Holds(disk.tree, cfg, BeforeHosts(), zip', zipMode)
    ensures PlainRegions(disk.tree, cfg) ==> zip'.extra == zip.extra
    ensures old(disk.faults) <= disk.faults && (err == None ==> disk.faults == old(disk.faults))
    ensures disk.faults == old(disk.faults) ==>
      (err == None <==> MissingIsPlain(disk.tree, cfg.archiveRoot + ["metadata"])
                        && MissingIsPlain(disk.tree, cfg.archiveRoot + ["templates"]))
  {
    var first, second := "metadata", "templates";
    PlainRegion(cfg, first);
    PlainRegion(cfg, second);
    assert ["archive", first][1] == first && ["archive", second][1] == second;
    ghost var between := StateDone() + {["archive", first]};
    assert between + {["archive", second]} == BeforeHosts();
    err, zip' := AddDirectoryIfExists(disk, cfg, ["archive", first], StateDone(), zip, zipMode);
    if err != None { return; }
    err, zip' := AddDirectoryIfExists(disk, cfg, ["archive", second], between, zip', zipMode);
  }

  // addSafeArchiveMetadataToZip
  method AddSafeArchiveMetadata(disk: Disk, cfg: Config, zip: Zip, zipMode: nat) returns (err: Option<Errno>, zip': Zip)
    requires Closed(disk.tree) && Holds(disk.tree, cfg, WebDone(), zip, zipMode)
    modifies disk`faults
    ensures err == None && RootsApart(cfg) ==>
      IsBackup(disk.tree, BackupNames(disk.tree, cfg), zip'.order, zip'.files, zipMode)
    ensures err == None && PlainRegions(disk.tree, cfg) ==> zip'.extra == zip.extra
    ensures old(disk.faults) <= disk.faults && (err == None ==> disk.faults == old(disk.faults))
    ensures disk.faults == old(disk.faults) ==> (err == None <==> MetadataReadable(disk.tree, cfg))
  {
    err, zip' := AddStateFiles(disk, cfg, zip, zipMode);
    if err != None { return; }
    err, zip' := AddPlainDirectories(disk, cfg, zip', zipMode);
    if err != None { return; }
    ghost var done;
    err, zip', done := AddHosts(disk, cfg, BeforeHosts(), zip', zipMode);
    if err == None && RootsApart(cfg) { AllRegionsDone(disk.tree, cfg, done, zip', zipMode); }
  }

  // The manifest, the web root and the safe archive metadata.
  method Collect(disk: Disk, cfg: Config, manifest: string, zipMode: nat) returns (err: Option<Errno>, zip: Zip)
    requires Closed(disk.tree)
    modifies disk`faults
    ensures err == None && RootsApart(cfg) ==>
      IsBackup(disk.tree, BackupNames(disk.tree, cfg), zip.order, zip.files, zipMode)
    ensures err == None && PlainRegions(disk.tree, cfg) ==> zip.extra == []
    ensures old(disk.faults) <= disk.faults && (err == None ==> disk.faults == old(disk.faults))
    ensures disk.faults == old(disk.faults) ==>
      (err == None <==> cfg.webRoot in disk.tree && MetadataReadable(disk.tree, cfg))
  {
    zip := Zip([], [Manifest(manifest, zipMode)], []);
    err, zip := AddDirectory(disk, cfg, ["web"], {}, zip, zipMode);
    if err != None { return; }
    assert {} + {["web"]} == WebDone();
    err, zip := AddSafeArchiveMetadata(disk, cfg, zip, zipMode);
  }
}
