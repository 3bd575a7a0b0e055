// Freezing: anonymous visitors see the published copy, operators the working tree.

module FrozenSite {
  import opened FilePaths
  import opened FileTree
  import opened CopyDirectories
  import opened PublishSnapshot
  import PageRenames

  // The file tree and the frozen flag of site-state.json.
  datatype Moment = Moment(tree: Tree, frozen: bool)

  // ---- the two views ----

  // The static branch of handle for the page at k; a frozen site never falls through
  // to the working tree, unless the flag cannot be read.
  function AnonymousPage(m: Moment, web: Path, archive: Path, k: Path, flagRead: bool): Option<string> {
    if flagRead && m.frozen then FileAt(m.tree, PublishedRoot(archive) + k) else FileAt(m.tree, web + k)
  }

  function OperatorPage(m: Moment, web: Path, k: Path): Option<string> {
    FileAt(m.tree, web + k)
  }

  // The /f branch, for the media file at k of a host.
  function AnonymousMedia(m: Moment, archive: Path, host: string, k: Path, flagRead: bool): Option<string> {
    if flagRead && m.frozen then FileAt(m.tree, PublishedRoot(archive) + (MediaPrefix(host) + k))
    else OperatorMedia(m, archive, host, k)
  }

  function OperatorMedia(m: Moment, archive: Path, host: string, k: Path): Option<string> {
    FileAt(m.tree, archive + (["domains", host, "media"] + k))
  }

  // ---- what may happen ----

  // An edit, upload, subpage or metadata write: one file, outside the published tree.
  ghost predicate WriteStep(m: Moment, m': Moment, archive: Path, p: Path, file: Node) {
    && !(PublishedRoot(archive) <= p) && OnlyWrote(m.tree, m'.tree, p, file)
    && Closed(m'.tree) && m'.frozen == m.frozen
  }

  // A page rename, outside the published tree.
  ghost predicate RenameStep(m: Moment, m': Moment, archive: Path, a: Path, b: Path, mid: Tree) {
    && Apart(a, PublishedRoot(archive)) && Apart(b, PublishedRoot(archive))
    && PageRenames.RenamedTo(m.tree, m'.tree, a, b, mid)
    && Closed(m'.tree) && m'.frozen == m.frozen
  }

  // The removal of a file, outside the published tree.
  ghost predicate RemoveStep(m: Moment, m': Moment, archive: Path, p: Path) {
    && !(PublishedRoot(archive) <= p) && p in m.tree && m.tree[p].File? && m'.tree == m.tree - {p}
    && Closed(m'.tree) && m'.frozen == m.frozen
  }

  ghost predicate EditStep(m: Moment, m': Moment, archive: Path) {
    || (exists p, file :: WriteStep(m, m', archive, p, file))
    || (exists a, b, mid :: RenameStep(m, m', archive, a, b, mid))
    || (exists p :: RemoveStep(m, m', archive, p))
  }

  // A freeze or unfreeze request that swapped the published tree; the flag may have
  // failed to be written.
  ghost predicate SwapStep(m: Moment, m': Moment, web: Path, archive: Path) {
    SnapshotTaken(m.tree, m'.tree, web, archive, PublishedRoot(archive)) && Closed(m'.tree)
  }

  // One that failed before: the published tree and the flag are as they were.
  ghost predicate KeepStep(m: Moment, m': Moment, archive: Path) {
    && SameBelow(m.tree, PublishedRoot(archive), m'.tree, PublishedRoot(archive))
    && Closed(m'.tree) && m'.frozen == m.frozen
  }

  datatype Act = Edit | Swap | Keep

  ghost predicate Step(m: Moment, m': Moment, web: Path, archive: Path, act: Act) {
    match act
    case Edit => EditStep(m, m', archive)
    case Swap => SwapStep(m, m', web, archive)
    case Keep => KeepStep(m, m', archive)
  }

  // ---- edits leave the published tree alone ----

  lemma WriteKeepsPublished(m: Moment, m': Moment, archive: Path, p: Path, file: Node)
    requires Closed(m.tree) && WriteStep(m, m', archive, p, file)
    ensures KeepStep(m, m', archive)
  {
    var root := PublishedRoot(archive);
    forall k: Path
      ensures root + k in m.tree <==> root + k in m'.tree
      ensures root + k in m.tree ==> m.tree[root + k] == m'.tree[root + k]
    {
      ComparableAppend(p, root, k);
    }
  }

  lemma RenameKeepsPublished(m: Moment, m': Moment, archive: Path, a: Path, b: Path, mid: Tree)
    requires RenameStep(m, m', archive, a, b, mid)
    ensures KeepStep(m, m', archive)
  {
    var root := PublishedRoot(archive);
    MovedApart(mid, a, b, root);
    forall k: Path
      ensures root + k in m.tree <==> root + k in mid
      ensures root + k in m.tree ==> m.tree[root + k] == mid[root + k]
    {
      ComparableAppend(Parent(b), root, k);
      BelowParent(root, b);
    }
    SameBelowTrans(m.tree, root, mid, root, m'.tree, root);
  }

  lemma EditKeepsPublished(m: Moment, m': Moment, archive: Path)
    requires Closed(m.tree) && EditStep(m, m', archive)
    ensures KeepStep(m, m', archive)
  {
    if p, file :| WriteStep(m, m', archive, p, file) {
      WriteKeepsPublished(m, m', archive, p, file);
    } else if a, b, mid :| RenameStep(m, m', archive, a, b, mid) {
      RenameKeepsPublished(m, m', archive, a, b, mid);
    } else {
      var p :| RemoveStep(m, m', archive, p);
      assert forall k: Path :: PublishedRoot(archive) <= PublishedRoot(archive) + k;
    }
  }

  // ---- runs ----

  ghost predicate StepAt(run: seq<Moment>, acts: seq<Act>, web: Path, archive: Path, i: int)
    requires 0 <= i < |acts| && |run| == |acts| + 1
  {
    Step(run[i], run[i + 1], web, archive, acts[i])
  }

  ghost predicate IsRun(run: seq<Moment>, acts: seq<Act>, web: Path, archive: Path) {
    && |run| == |acts| + 1 && Closed(run[0].tree) && !run[0].frozen
    && forall i :: 0 <= i < |acts| ==> StepAt(run, acts, web, archive, i)
  }

  // The last swap before moment i.
  ghost predicate LastSwap(acts: seq<Act>, i: nat, j: nat) {
    j < i <= |acts| && acts[j] == Swap && forall l :: j < l < i ==> acts[l] != Swap
  }

  lemma {:induction false} RunIsClosed(run: seq<Moment>, acts: seq<Act>, web: Path, archive: Path, i: nat)
    requires IsRun(run, acts, web, archive) && i < |run|
    ensures Closed(run[i].tree)
  {
    if i > 0 {
      RunIsClosed(run, acts, web, archive, i - 1);
      assert StepAt(run, acts, web, archive, i - 1);
      if acts[i - 1] == Edit { EditKeepsPublished(run[i - 1], run[i], archive); }
    }
  }

  lemma {:induction false} FrozenShowsLastSwap(run: seq<Moment>, acts: seq<Act>, web: Path, archive: Path, i: nat)
      returns (j: nat)
    requires IsRun(run, acts, web, archive) && i < |run| && run[i].frozen
    ensures LastSwap(acts, i, j)
    ensures SnapshotTaken(run[j].tree, run[i].tree, web, archive, PublishedRoot(archive))
  {
    assert StepAt(run, acts, web, archive, i - 1);
    if acts[i - 1] == Swap { return i - 1; }
    RunIsClosed(run, acts, web, archive, i - 1);
    if acts[i - 1] == Edit { EditKeepsPublished(run[i - 1], run[i], archive); }
    j := FrozenShowsLastSwap(run, acts, web, archive, i - 1);
  }

  // The promise of freezing: in every run, while the site is frozen, an anonymous
  // visitor sees of every page and every media file what the working tree held when
  // the published copy was last swapped, whatever was edited since.
  lemma AnonymousSeesTheSnapshot(run: seq<Moment>, acts: seq<Act>, web: Path, archive: Path, i: nat) returns (j: nat)
    requires IsRun(run, acts, web, archive) && i < |run| && run[i].frozen
    ensures LastSwap(acts, i, j)
    ensures forall k: Path ::
      AnonymousPage(run[i], web, archive, k, true) == SnapshotAt(run[j].tree, web, archive, k)
    ensures forall host: string, k: Path :: k != [] && OperatorMedia(run[j], archive, host, k).Some? ==>
      AnonymousMedia(run[i], archive, host, k, true) == OperatorMedia(run[j], archive, host, k)
  {
    j := FrozenShowsLastSwap(run, acts, web, archive, i);
    forall host: string, k: Path | k != [] && OperatorMedia(run[j], archive, host, k).Some?
      ensures AnonymousMedia(run[i], archive, host, k, true) == OperatorMedia(run[j], archive, host, k)
    {
      MediaKey(host, k);
    }
  }

  lemma MediaKey(host: string, k: Path)
    requires k != []
    ensures IsMedia(MediaPrefix(host) + k) && (MediaPrefix(host) + k)[1..] == ["domains", host, "media"] + k
  {
  }

  // Exactly when a frozen page is shown as it was: its own path does not lie where the
  // media of a host is published, or that media has nothing else there.
  lemma FrozenPageIsItselfIff(run: seq<Moment>, acts: seq<Act>, web: Path, archive: Path, i: nat, k: Path) returns (j: nat)
    requires IsRun(run, acts, web, archive) && i < |run| && run[i].frozen && k != []
    ensures LastSwap(acts, i, j)
    ensures AnonymousPage(run[i], web, archive, k, true) == OperatorPage(run[j], web, k) <==>
      (IsMedia(k) && OperatorMedia(run[j], archive, k[2], k[4..]).Some? ==>
        OperatorMedia(run[j], archive, k[2], k[4..]) == OperatorPage(run[j], web, k))
  {
    j := AnonymousSeesTheSnapshot(run, acts, web, archive, i);
    if IsMedia(k) { assert k[1..] == ["domains", k[2], "media"] + k[4..]; }
  }

  // ---- the request ----

  class Freezer {
    const disk: Disk
    const web: Path
    const archive: Path
    var frozen: bool
    ghost var faults: nat  // failures to write the flag

    constructor (disk: Disk, web: Path, archive: Path)
      ensures this.disk == disk && this.web == web && this.archive == archive && !frozen && faults == 0
    {
      this.disk, this.web, this.archive := disk, web, archive;
      frozen, faults := false, 0;
    }

    // Ask the environment whether the next call breaks.
    method Fault() returns (bad: bool)
      modifies this`faults
      ensures faults == old(faults) + if bad then 1 else 0
    {
      bad := *;
      if bad { faults := faults + 1; }
    }

    // writeSiteState: its directory sync may fail after the flag is in place.
    method WriteFlag(on: bool) returns (ok: bool)
      modifies this`frozen, this`faults
      ensures frozen == on || frozen == old(frozen)
      ensures ok ==> frozen == on
      ensures faults == old(faults) + if ok then 0 else 1
    {
      var bad := Fault();
      if bad { return false; }
      frozen := on;
      bad := Fault();
      ok := !bad;
    }

    // setFreeze: publish first, and only then write the flag.
    method SetFreeze(on: bool, suffix: string) returns (ok: bool, ghost outcome: Swap)
      requires Closed(disk.tree) && CleanPath(archive)
      requires TempRoot(archive, suffix) !in disk.tree && !(TempRoot(archive, suffix) <= web)
      modifies this`frozen, this`faults, disk
      ensures Closed(disk.tree) && OnlyAround(old(disk.tree), disk.tree, archive, suffix)
      ensures ok ==> outcome == Swapped && frozen == on
      ensures frozen != old(frozen) ==> outcome == Swapped && frozen == on
      ensures outcome == Swapped
        ==> Step(old(Moment(disk.tree, frozen)), Moment(disk.tree, frozen), web, archive, Act.Swap)
      ensures outcome == Kept
        ==> Step(old(Moment(disk.tree, frozen)), Moment(disk.tree, frozen), web, archive, Act.Keep)
      ensures outcome in {Unrestored, StaleShown} ==> old(disk.faults) + 2 <= disk.faults
      ensures disk.faults == old(disk.faults) && faults == old(faults) && old(Publishable(disk.tree, web, archive)) ==> ok
    {
      var err;
      err, outcome := Publish(disk, web, archive, suffix);
      if err != None { return false, outcome; }
      ok := WriteFlag(on);
    }
  }

  lemma WebApartFromRoots(web: Path, archive: Path, suffix: string)
    requires Apart(web, archive)
    ensures Apart(web, PublishedRoot(archive)) && Apart(web, StaleRoot(archive)) && Apart(web, TempRoot(archive, suffix))
  {
    ApartAppend(archive, web, ["published"]);
    ApartAppend(archive, web, ["published.old"]);
    ApartAppend(archive, web, [".published-" + suffix]);
  }

  // At the moment of a swap both views show the same pages, outside the place where
  // media is published; so freezing by itself changes nothing a visitor sees.
  lemma ViewsMeetAtSwap(m: Moment, m': Moment, web: Path, archive: Path, suffix: string, k: Path, flagRead: bool)
    requires SwapStep(m, m', web, archive) && OnlyAround(m.tree, m'.tree, archive, suffix)
    requires Apart(web, archive) && k != [] && !IsMedia(k)
    ensures AnonymousPage(m', web, archive, k, flagRead) == OperatorPage(m', web, k) == OperatorPage(m, web, k)
  {
    WebApartFromRoots(web, archive, suffix);
    BelowApart(web, PublishedRoot(archive), web + k);
    BelowApart(web, StaleRoot(archive), web + k);
    BelowApart(web, TempRoot(archive, suffix), web + k);
    BelowApart(web, archive, web + k);
  }

  // If the flag cannot be read, an anonymous visitor of a frozen site sees the working
  // tree, so an edit made after freezing shows.
  lemma UnreadFlagShowsTheEdit(m: Moment, m': Moment, web: Path, archive: Path, k: Path, content: string, mode: nat)
    requires m.frozen && WriteStep(m, m', archive, web + k, File(content, mode)) && Closed(m.tree)
    requires web + k in m'.tree && m'.tree[web + k] == File(content, mode)
    ensures AnonymousPage(m', web, archive, k, false) == Some(content)
    ensures AnonymousPage(m', web, archive, k, true) == AnonymousPage(m, web, archive, k, true)
  {
    WriteKeepsPublished(m, m', archive, web + k, File(content, mode));
  }
}
