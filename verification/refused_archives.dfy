// Archives that a restore refuses or cannot write, although each of their entries is
// acceptable by itself.

module RefusedArchives {
  import opened FilePaths
  import opened SlashNames
  import opened FileTree
  import opened ArchiveNames
  import opened BackupRestore
  import opened BackupWalk
  import opened BackupCreate

  lemma TwoTargets(cfg: Config, f: ArchiveFile, g: ArchiveFile)
    requires |TargetOf(cfg, f)| == |TargetOf(cfg, g)| == 1
    ensures TargetsOf(cfg, [f, g]) == [TargetOf(cfg, f)[0], TargetOf(cfg, g)[0]]
  {
    var found: seq<seq<Target>> := Found(cfg, [f, g]);
    assert found[..1] == [found[0]] && found[..1][..0] == [];
    assert Concat(found[..1]) == Concat([]) + found[0];
  }

  ghost predicate IsPlainFile(f: ArchiveFile, name: string) {
    f.name == name && !f.isDir && !f.isSymlink
  }

  // ---- one file under two names ----

  lemma WebTarget(cfg: Config, p: Path, f: ArchiveFile)
    requires CleanConfig(cfg) && Above(cfg.webRoot, p) && ArchivablePath(p)
    requires IsPlainFile(f, Join(["web"] + p[|cfg.webRoot|..]))
    ensures TargetOf(cfg, f) == [Target(cfg.webRoot, p, f)] && ValidEntryName(f.name)
  {
    WebName(cfg, p);
    WebFileRoundTrip(cfg, p);
    TargetOfNamed(cfg, p, f);
  }

  lemma ArchiveTarget(cfg: Config, rel: Path, f: ArchiveFile)
    requires CleanConfig(cfg) && WalkedFrom(rel).Some? && ArchivablePath(rel)
    requires IsPlainFile(f, Join(["archive"] + rel))
    ensures TargetOf(cfg, f) == [Target(cfg.archiveRoot, cfg.archiveRoot + rel, f)]
  {
    BelowArchiveRoundTrip(cfg, rel);
    NotTheManifest(cfg, f.name);
  }

  lemma PartIsArchivable(root: Path, rel: Path)
    requires ArchivablePath(root + rel)
    ensures ArchivablePath(rel)
  {
    assert forall i :: 0 <= i < |rel| ==> rel[i] == (root + rel)[|root| + i];
  }

  // A web root inside a walked directory of the archive root: its files go into the
  // archive twice, and no restore takes it.
  lemma OverlapIsRefused(t: Tree, cfg: Config, rel: Path, f: ArchiveFile, g: ArchiveFile)
    requires CleanConfig(cfg) && WalkedFrom(rel).Some?
    requires Above(cfg.webRoot, cfg.archiveRoot + rel) && ArchivablePath(cfg.archiveRoot + rel)
    requires IsPlainFile(f, Join(["web"] + (cfg.archiveRoot + rel)[|cfg.webRoot|..]))
    requires IsPlainFile(g, Join(["archive"] + rel))
    ensures !RootsApart(cfg) && !Admissible(t, cfg, [f, g])
  {
    PartIsArchivable(cfg.archiveRoot, rel);
    WebTarget(cfg, cfg.archiveRoot + rel, f);
    ArchiveTarget(cfg, rel, g);
    TwoTargets(cfg, f, g);
    var targets := TargetsOf(cfg, [f, g]);
    assert targets[0].path == targets[1].path;
  }

  // ---- a file where another needs a directory ----

  lemma ReachableWhenMissing(t: Tree, root: Path, p: Path, x: Path)
    requires Closed(t) && root in t && Above(root, p) && p <= x && p !in t && WayIsClear(t, Parent(p))
    ensures Reachable(t, root, x) && x !in t
  {
    NothingBelowMissing(t, p);
    assert forall i :: |p| <= i <= |x| ==> p <= x[..i];
    assert x == x[..|x|];
    forall i | |root| <= i < |x| && x[..i] in t ensures t[x[..i]].Dir? {
      if i < |p| { assert x[..i] == p[..i] == Parent(p)[..i]; }
    }
  }

  lemma WebFileIsAcceptable(t: Tree, cfg: Config, p: Path, x: Path, f: ArchiveFile)
    requires Closed(t) && CleanConfig(cfg) && cfg.webRoot in t && Above(cfg.webRoot, p) && p <= x
    requires p !in t && WayIsClear(t, Parent(p)) && ArchivablePath(x)
    requires IsPlainFile(f, Join(["web"] + x[|cfg.webRoot|..]))
    ensures Acceptable(t, cfg, f) && TargetOf(cfg, f) == [Target(cfg.webRoot, x, f)] && x !in t
  {
    assert cfg.webRoot == p[..|cfg.webRoot|] == x[..|cfg.webRoot|];
    ReachableWhenMissing(t, cfg.webRoot, p, x);
    WebTarget(cfg, x, f);
    WebName(cfg, x);
    WebFileRoundTrip(cfg, x);
  }

  lemma PrefixIsArchivable(p: Path, q: Path)
    requires p <= q && ArchivablePath(q)
    ensures ArchivablePath(p)
  {
    assert forall i :: 0 <= i < |p| ==> p[i] == q[i];
  }

  lemma ClashingTargets(t: Tree, cfg: Config, f: ArchiveFile, g: ArchiveFile, p: Path, q: Path)
    requires TargetOf(cfg, f) == [Target(cfg.webRoot, p, f)] && TargetOf(cfg, g) == [Target(cfg.webRoot, q, g)]
    requires Acceptable(t, cfg, f) && Acceptable(t, cfg, g) && Above(p, q) && p !in t && q !in t
    ensures Admissible(t, cfg, [f, g]) && !PrefixFreeTargets(TargetsOf(cfg, [f, g]))
  {
    TwoTargets(cfg, f, g);
    var targets := TargetsOf(cfg, [f, g]);
    assert targets[0].path == p && targets[1].path == q;
  }

  // Two missing files, one above the other, pass every check of a restore together, so
  // that it fails while writing.
  lemma ClashIsAdmissible(t: Tree, cfg: Config, p: Path, q: Path, f: ArchiveFile, g: ArchiveFile)
    requires Closed(t) && CleanConfig(cfg) && cfg.webRoot in t && Above(cfg.webRoot, p) && Above(p, q)
    requires p !in t && WayIsClear(t, Parent(p)) && ArchivablePath(q)
    requires IsPlainFile(f, Join(["web"] + p[|cfg.webRoot|..])) && IsPlainFile(g, Join(["web"] + q[|cfg.webRoot|..]))
    ensures Admissible(t, cfg, [f, g]) && !PrefixFreeTargets(TargetsOf(cfg, [f, g]))
  {
    PrefixIsArchivable(p, q);
    WebFileIsAcceptable(t, cfg, p, p, f);
    WebFileIsAcceptable(t, cfg, p, q, g);
    ClashingTargets(t, cfg, f, g, p, q);
  }

  lemma EmptySite(web: string, x: string)
    ensures var t: Tree := map[[] := Dir, [web] := Dir];
      Closed(t) && WayIsClear(t, Parent([web, x])) && [web, x] !in t
  {
    assert Parent([web]) == [] && Parent([web, x]) == [web];
  }

  lemma ClashInEmptySite(web: string, archive: string, x: string, y: string, f: ArchiveFile, g: ArchiveFile)
    requires ArchivablePath([web, x, y]) && PlainSegment(archive)
    requires IsPlainFile(f, Join(["web"] + [x])) && IsPlainFile(g, Join(["web"] + [x, y]))
    ensures var cfg := Config([web], [archive]);
      var t: Tree := map[[] := Dir, [web] := Dir];
      Closed(t) && CleanConfig(cfg) && Admissible(t, cfg, [f, g]) && !PrefixFreeTargets(TargetsOf(cfg, [f, g]))
  {
    EmptySite(web, x);
    assert [web, x][1..] == [x] && [web, x, y][1..] == [x, y];
    assert [web, x] == [web, x, y][..2] && [web] == [web, x][..1];
    assert PlainSegment([web, x, y][0]);
    ClashIsAdmissible(map[[] := Dir, [web] := Dir], Config([web], [archive]), [web, x], [web, x, y], f, g);
  }

  lemma NamesInside(web: string, x: string, y: string)
    ensures Join([web] + [x]) == web + "/" + x && Join([web] + [x, y]) == web + "/" + (x + "/" + y)
  {
    assert [web] + [x] == [web, x] && [web] + [x, y] == [web, x, y] && [web, x, y][1..] == [x, y];
    JoinTwo(web, x);
    JoinTwo(x, y);
  }

  // The smallest such archive, against a site with an empty web root.
  lemma PrefixClash(content: string, zipMode: nat)
    ensures var cfg := Config(["web"], ["archive"]);
      var t: Tree := map[[] := Dir, ["web"] := Dir];
      var files := [ArchiveFile("web/x", content, zipMode, false, false), ArchiveFile("web/x/y", content, zipMode, false, false)];
      Closed(t) && CleanConfig(cfg) && Admissible(t, cfg, files) && !PrefixFreeTargets(TargetsOf(cfg, files))
  {
    NamesInside("web", "x", "y");
    assert "web" + "/" + "x" == "web/x" && "web" + "/" + ("x" + "/" + "y") == "web/x/y";
    ClashInEmptySite("web", "archive", "x", "y", ArchiveFile("web/x", content, zipMode, false, false),
                     ArchiveFile("web/x/y", content, zipMode, false, false));
  }
}
