// How a backup names the files it holds, and where a restore puts them back.

module ArchiveNames {
  import opened FilePaths
  import opened SlashNames
  import opened FileTree

  datatype Config = Config(webRoot: Path, archiveRoot: Path)

  predicate OccursAt(s: string, i: nat, sub: string) {
    i + |sub| <= |s| && s[i..i + |sub|] == sub
  }

  // strings.Contains
  predicate Contains(s: string, sub: string) {
    exists i | 0 <= i <= |s| :: OccursAt(s, i, sub)
  }

  function TrimSlash(s: string): string {
    if s != "" && s[|s| - 1] == '/' then s[..|s| - 1] else s
  }

  // validateBackupEntryName
  predicate ValidEntryName(name: string) {
    && name != "" && '\\' !in name && '\0' !in name
    && name[0] != '/'
    && var cleaned := Clean(name);
       && cleaned != "." && cleaned != ".." && !("../" <= cleaned)
       && cleaned == TrimSlash(name)
  }

  // Accepted names are exactly the plain relative ones, with at most one
  // trailing slash.
  lemma ValidEntryNameMeaning(name: string)
    ensures ValidEntryName(name) <==>
      '\\' !in name && '\0' !in name && CleanPath(Split(TrimSlash(name)))
  {
    if name == "" || name[0] == '/' {
      SplitHead(TrimSlash(name));
      assert !PlainSegment(Split(TrimSlash(name))[0]);
    } else {
      CleanedIsPlain(name);
      if CleanPath(Split(TrimSlash(name))) { CleanOfPlainName(name); }
    }
  }

  lemma CleanedIsPlain(name: string)
    requires name != "" && name[0] != '/'
    ensures Clean(name) == "." || Clean(name) == ".." || "../" <= Clean(name) || CleanPath(Split(Clean(name)))
  {
    SplitHasNoSlash(name);
    var k := CleanFoldShape([], 0, Split(name));
    var segs := CleanSegments(name);
    if segs != [] {
      if k == 0 {
        SplitJoin(segs);
      } else if |segs| > 1 {
        assert Join(segs) == ".." + "/" + Join(segs[1..]);
      }
    }
  }

  lemma CleanOfPlainName(name: string)
    requires CleanPath(Split(TrimSlash(name)))
    ensures Clean(name) == TrimSlash(name)
    ensures name != "" && name[0] != '/' && Clean(name) != "." && Clean(name) != ".." && !("../" <= Clean(name))
  {
    var short := TrimSlash(name);
    var segs := Split(short);
    PlainEnds(short);
    JoinSplit(short);
    CleanFoldPlain([], segs, false);
    if short != name {
      SplitTail(name);
      CleanFoldAppend([], segs, [""], false);
      assert CleanFold(segs, [""], false) == segs;
    }
    assert CleanSegments(name) == segs;
  }

  // safeJoinUnderRoot
  function SafeJoinUnderRoot(root: Path, rel: string): Option<Path> {
    var target := CleanFold(root, Split(rel), true);
    if PathIsInsideRoot(root, target) then Some(target) else None
  }

  datatype TargetResult = TargetError | NoTarget | TargetAt(path: Path)

  predicate UnderArchive(name: string) {
    || "archive/metadata/" <= name
    || "archive/templates/" <= name
    || ("archive/domains/" <= name && Contains(name, "/media/"))
    || ("archive/domains/" <= name && Contains(name, "/media-metadata/"))
  }

  // restoreTargetForArchiveName
  function RestoreTarget(cfg: Config, name: string): TargetResult {
    if !ValidEntryName(name) then TargetError
    else if "web/" <= name then Located(SafeJoinUnderRoot(cfg.webRoot, name[|"web/"|..]))
    else if name == "archive/site-state.json" then TargetAt(cfg.archiveRoot + ["site-state.json"])
    else if name == "archive/redirects.json" then TargetAt(cfg.archiveRoot + ["redirects.json"])
    else if UnderArchive(name) then Located(SafeJoinUnderRoot(cfg.archiveRoot, name[|"archive/"|..]))
    else NoTarget
  }

  function Located(path: Option<Path>): TargetResult {
    match path
    case Some(p) => TargetAt(p)
    case None => TargetError
  }

  // restoreRootForArchiveName
  function RestoreRoot(cfg: Config, name: string): Option<Path> {
    if !ValidEntryName(name) then None
    else if "web/" <= name then Some(cfg.webRoot)
    else if name == "archive/site-state.json" || name == "archive/redirects.json" || UnderArchive(name)
    then Some(cfg.archiveRoot)
    else None
  }

  lemma SafeJoinStaysInside(root: Path, rel: string)
    requires CleanPath(root) && SafeJoinUnderRoot(root, rel).Some?
    ensures root <= SafeJoinUnderRoot(root, rel).value && CleanPath(SafeJoinUnderRoot(root, rel).value)
  {
    var target := CleanFold(root, Split(rel), true);
    SplitHasNoSlash(rel);
    RootedCleanIsClean(root, Split(rel));
    InsideRootIsPrefix(root, target);
  }

  // Whenever a name has a target it has a root, and the root contains the target.
  lemma TargetIsUnderItsRoot(cfg: Config, name: string)
    requires CleanPath(cfg.webRoot) && CleanPath(cfg.archiveRoot)
    requires RestoreTarget(cfg, name).TargetAt?
    ensures RestoreRoot(cfg, name).Some?
    ensures RestoreRoot(cfg, name).value <= RestoreTarget(cfg, name).path
    ensures CleanPath(RestoreTarget(cfg, name).path)
  {
    if "web/" <= name {
      SafeJoinStaysInside(cfg.webRoot, name[|"web/"|..]);
    } else if name == "archive/site-state.json" {
    } else if name == "archive/redirects.json" {
    } else if UnderArchive(name) {
      SafeJoinStaysInside(cfg.archiveRoot, name[|"archive/"|..]);
    }
  }

  // pathpkg.Join(prefix, rel)
  function JoinNames(prefix: string, rel: string): string {
    Clean(prefix + "/" + rel)
  }

  // How many segments below the archive root name the directory a backup
  // walks to reach the file: the two state files are taken by themselves.
  function WalkedFrom(rel: Path): Option<nat> {
    if rel == ["site-state.json"] || rel == ["redirects.json"] then Some(0)
    else if |rel| >= 2 && rel[0] in {"metadata", "templates"} then Some(1)
    else if |rel| >= 4 && rel[0] == "domains" && rel[2] in {"media", "media-metadata"} then Some(3)
    else None
  }

  // The name createBackup gives the regular file at p, if it takes it at all.
  function ArchiveNameOf(cfg: Config, p: Path): Option<string> {
    if Above(cfg.webRoot, p) then
      Some(JoinNames("web", Join(p[|cfg.webRoot|..])))
    else if Above(cfg.archiveRoot, p) then
      var rel := p[|cfg.archiveRoot|..];
      match WalkedFrom(rel)
      case None => None
      case Some(k) => Some(JoinNames(Join(["archive"] + rel[..k]), Join(rel[k..])))
    else None
  }

  // Names a POSIX file can have, less the backslash the archive format refuses.
  ghost predicate ArchivablePath(p: Path) {
    CleanPath(p) && forall i :: 0 <= i < |p| ==> '\\' !in p[i] && '\0' !in p[i]
  }

  lemma {:induction false} JoinKeepsOut(segs: seq<string>, c: char)
    requires c != '/' && forall i :: 0 <= i < |segs| ==> c !in segs[i]
    ensures c !in Join(segs)
  {
    if |segs| > 1 { JoinKeepsOut(segs[1..], c); }
  }

  lemma PlainJoinIsClean(segs: seq<string>)
    requires segs != [] && CleanPath(segs)
    ensures Split(Join(segs)) == segs && Clean(Join(segs)) == Join(segs) == TrimSlash(Join(segs))
  {
    SplitJoin(segs);
    PlainEnds(Join(segs));
    CleanOfPlainName(Join(segs));
  }

  lemma PlainJoinIsValid(segs: seq<string>)
    requires segs != [] && ArchivablePath(segs)
    ensures ValidEntryName(Join(segs))
  {
    PlainJoinIsClean(segs);
    JoinKeepsOut(segs, '\\');
    JoinKeepsOut(segs, '\0');
    ValidEntryNameMeaning(Join(segs));
  }

  lemma JoinNamesIsJoin(a: seq<string>, b: seq<string>)
    requires a != [] && b != [] && CleanPath(a) && CleanPath(b)
    ensures JoinNames(Join(a), Join(b)) == Join(a + b) == Join(a) + "/" + Join(b)
  {
    JoinAppend(a, b);
    PlainJoinIsClean(a + b);
  }

  // The name is the prefix and the relative segments, joined by slashes.
  lemma WebName(cfg: Config, p: Path)
    requires CleanPath(p) && Above(cfg.webRoot, p)
    ensures ArchiveNameOf(cfg, p) == Some(Join(["web"] + p[|cfg.webRoot|..]))
  {
    JoinNamesIsJoin(["web"], p[|cfg.webRoot|..]);
  }

  lemma ArchiveName(cfg: Config, p: Path)
    requires CleanPath(p) && Above(cfg.archiveRoot, p) && !Above(cfg.webRoot, p)
    requires WalkedFrom(p[|cfg.archiveRoot|..]).Some?
    ensures ArchiveNameOf(cfg, p) == Some(Join(["archive"] + p[|cfg.archiveRoot|..]))
  {
    var rel := p[|cfg.archiveRoot|..];
    var k := WalkedFrom(rel).value;
    JoinNamesIsJoin(["archive"] + rel[..k], rel[k..]);
    assert ["archive"] + rel[..k] + rel[k..] == ["archive"] + rel;
  }

  lemma SafeJoinOfPlain(root: Path, rel: Path)
    requires CleanPath(root) && rel != [] && CleanPath(rel)
    ensures SafeJoinUnderRoot(root, Join(rel)) == Some(root + rel)
  {
    SplitJoin(rel);
    CleanFoldPlain(root, rel, true);
    InsideRootIsPrefix(root, root + rel);
  }

  lemma JoinHasPrefix(segs: seq<string>, i: nat)
    requires 0 < i < |segs|
    ensures Join(segs[..i]) + "/" <= Join(segs)
  {
    JoinAppend(segs[..i], segs[i..]);
    assert segs[..i] + segs[i..] == segs;
  }

  lemma MiddleOccurs(s: string, x: string, y: string, z: string)
    requires s == x + y + z
    ensures Contains(s, y)
  {
    assert OccursAt(s, |x|, y);
  }

  lemma InnerSegmentOccurs(segs: seq<string>, i: nat)
    requires 0 < i < |segs| - 1
    ensures Contains(Join(segs), "/" + segs[i] + "/")
  {
    CutAround(segs, i);
    MiddleSegmentOccurs(segs, segs[..i], segs[i], segs[i + 1..]);
  }

  lemma CutAround(segs: seq<string>, i: nat)
    requires i < |segs|
    ensures segs == segs[..i] + ([segs[i]] + segs[i + 1..])
  {
  }

  lemma MiddleSegmentOccurs(segs: seq<string>, a: seq<string>, x: string, b: seq<string>)
    requires a != [] && b != [] && segs == a + ([x] + b)
    ensures Contains(Join(segs), "/" + x + "/")
  {
    JoinAppend(a, [x] + b);
    JoinCons(x, b);
    Slashed(Join(a), x, Join(b));
    MiddleOccurs(Join(segs), Join(a), "/" + x + "/", Join(b));
  }

  lemma Slashed(x: string, y: string, z: string)
    ensures x + "/" + (y + "/" + z) == x + ("/" + y + "/") + z
  {
  }

  lemma LiteralNames()
    ensures "archive" + "/" + "domains" + "/" == "archive/domains/"
    ensures "archive" + "/" + "metadata" + "/" == "archive/metadata/"
    ensures "archive" + "/" + "templates" + "/" == "archive/templates/"
    ensures "/" + "media" + "/" == "/media/"
    ensures "/" + "media-metadata" + "/" == "/media-metadata/"
  {
  }

  lemma StartOfName(top: string, rel: Path)
    requires |rel| >= 2
    ensures top + "/" + rel[0] + "/" <= Join([top] + rel)
  {
    JoinTwo(top, rel[0]);
    JoinHasPrefix([top] + rel, 2);
    assert ([top] + rel)[..2] == [top, rel[0]];
  }

  lemma JoinTwo(a: string, b: string)
    ensures Join([a, b]) == a + "/" + b
  {
    assert [a, b][1..] == [b];
  }

  lemma WalkedNameIsUnderArchive(rel: Path)
    requires WalkedFrom(rel).Some? && WalkedFrom(rel).value > 0
    ensures UnderArchive(Join(["archive"] + rel))
  {
    LiteralNames();
    StartOfName("archive", rel);
    if WalkedFrom(rel).value == 3 {
      InnerSegmentOccurs(["archive"] + rel, 3);
    }
  }

  lemma WebNameRoundTrip(cfg: Config, rel: Path)
    requires CleanPath(cfg.webRoot) && rel != [] && ArchivablePath(rel)
    ensures var name := Join(["web"] + rel);
      && RestoreTarget(cfg, name) == TargetAt(cfg.webRoot + rel)
      && RestoreRoot(cfg, name) == Some(cfg.webRoot)
  {
    PlainJoinIsValid(["web"] + rel);
    JoinAppend(["web"], rel);
    SafeJoinOfPlain(cfg.webRoot, rel);
    assert Join(["web"] + rel)[|"web/"|..] == Join(rel);
  }

  lemma StateFileNames()
    ensures Join(["archive", "site-state.json"]) == "archive/site-state.json"
    ensures Join(["archive", "redirects.json"]) == "archive/redirects.json"
  {
    JoinTwo("archive", "site-state.json");
    JoinTwo("archive", "redirects.json");
    assert "archive" + "/" + "site-state.json" == "archive/site-state.json";
    assert "archive" + "/" + "redirects.json" == "archive/redirects.json";
  }

  lemma StateFileRoundTrip(cfg: Config, rel: Path)
    requires WalkedFrom(rel) == Some(0) && ArchivablePath(rel)
    ensures var name := Join(["archive"] + rel);
      && RestoreTarget(cfg, name) == TargetAt(cfg.archiveRoot + rel)
      && RestoreRoot(cfg, name) == Some(cfg.archiveRoot)
  {
    PlainJoinIsValid(["archive"] + rel);
    StateFileNames();
    if rel == ["site-state.json"] {
      assert ["archive"] + rel == ["archive", "site-state.json"];
    } else {
      assert ["archive"] + rel == ["archive", "redirects.json"];
    }
  }

  lemma WalkedNameRoundTrip(cfg: Config, rel: Path)
    requires CleanPath(cfg.archiveRoot) && ArchivablePath(rel)
    requires WalkedFrom(rel).Some? && WalkedFrom(rel).value > 0
    ensures var name := Join(["archive"] + rel);
      && RestoreTarget(cfg, name) == TargetAt(cfg.archiveRoot + rel)
      && RestoreRoot(cfg, name) == Some(cfg.archiveRoot)
  {
    var name := Join(["archive"] + rel);
    PlainJoinIsValid(["archive"] + rel);
    NotAStateFile(rel);
    WalkedNameIsUnderArchive(rel);
    JoinAppend(["archive"], rel);
    assert name == "archive" + "/" + Join(rel);
    assert name[|"archive/"|..] == Join(rel);
    SafeJoinOfPlain(cfg.archiveRoot, rel);
  }

  lemma NotAStateFile(rel: Path)
    requires CleanPath(rel) && |rel| >= 2
    ensures Join(["archive"] + rel) != "archive/site-state.json" && Join(["archive"] + rel) != "archive/redirects.json"
  {
    SplitJoin(["archive"] + rel);
    StateFileSplits();
  }

  lemma StateFileSplits()
    ensures |Split("archive/site-state.json")| == |Split("archive/redirects.json")| == 2
  {
    StateFileNames();
    SplitJoin(["archive", "site-state.json"]);
    SplitJoin(["archive", "redirects.json"]);
  }

  lemma WebFileRoundTrip(cfg: Config, p: Path)
    requires CleanPath(cfg.webRoot) && ArchivablePath(p) && Above(cfg.webRoot, p)
    ensures ArchiveNameOf(cfg, p).Some?
    ensures RestoreTarget(cfg, ArchiveNameOf(cfg, p).value) == TargetAt(p)
    ensures RestoreRoot(cfg, ArchiveNameOf(cfg, p).value) == Some(cfg.webRoot)
  {
    WebName(cfg, p);
    WebNameRoundTrip(cfg, p[|cfg.webRoot|..]);
    assert p == cfg.webRoot + p[|cfg.webRoot|..];
  }

  lemma BelowArchiveRoundTrip(cfg: Config, rel: Path)
    requires CleanPath(cfg.archiveRoot) && ArchivablePath(rel) && WalkedFrom(rel).Some?
    ensures RestoreTarget(cfg, Join(["archive"] + rel)) == TargetAt(cfg.archiveRoot + rel)
    ensures RestoreRoot(cfg, Join(["archive"] + rel)) == Some(cfg.archiveRoot)
  {
    if WalkedFrom(rel).value == 0 {
      StateFileRoundTrip(cfg, rel);
    } else {
      WalkedNameRoundTrip(cfg, rel);
    }
  }

  lemma ArchiveFileRoundTrip(cfg: Config, p: Path)
    requires CleanPath(cfg.archiveRoot) && ArchivablePath(p)
    requires ArchiveNameOf(cfg, p).Some? && !Above(cfg.webRoot, p)
    ensures RestoreTarget(cfg, ArchiveNameOf(cfg, p).value) == TargetAt(p)
    ensures RestoreRoot(cfg, ArchiveNameOf(cfg, p).value) == Some(cfg.archiveRoot)
  {
    var rel := p[|cfg.archiveRoot|..];
    ArchiveName(cfg, p);
    BelowArchiveRoundTrip(cfg, rel);
    assert p == cfg.archiveRoot + rel;
  }

  // Naming and locating are inverse: a captured file's name is accepted and
  // leads back to the file, under the root it came from.
  lemma ArchiveNameRoundTrip(cfg: Config, p: Path)
    requires CleanPath(cfg.webRoot) && CleanPath(cfg.archiveRoot)
    requires ArchivablePath(p) && ArchiveNameOf(cfg, p).Some?
    ensures RestoreTarget(cfg, ArchiveNameOf(cfg, p).value) == TargetAt(p)
    ensures RestoreRoot(cfg, ArchiveNameOf(cfg, p).value).Some?
    ensures Above(RestoreRoot(cfg, ArchiveNameOf(cfg, p).value).value, p)
  {
    if Above(cfg.webRoot, p) {
      WebFileRoundTrip(cfg, p);
    } else {
      ArchiveFileRoundTrip(cfg, p);
    }
  }

  // No two captured files share a name.
  lemma ArchiveNamesAreInjective(cfg: Config, p: Path, q: Path)
    requires CleanPath(cfg.webRoot) && CleanPath(cfg.archiveRoot)
    requires ArchivablePath(p) && ArchivablePath(q)
    requires ArchiveNameOf(cfg, p).Some? && ArchiveNameOf(cfg, p) == ArchiveNameOf(cfg, q)
    ensures p == q
  {
    ArchiveNameRoundTrip(cfg, p);
    ArchiveNameRoundTrip(cfg, q);
  }
}
