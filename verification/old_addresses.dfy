// The promise that pages stay reachable under every name they ever had.

module OldAddresses {
  import opened FilePaths
  import opened FileTree
  import opened PageRenames

  // ---- what a visitor sees ----

  // The pages below the web root, where the active redirects of the domain lead, and
  // the name of the index file.
  datatype World = World(pages: Tree, links: map<Path, Path>, index: string)

  datatype Answer = Serves | RedirectsTo(next: Path) | NoPage

  predicate IsFile(w: World, u: Path) {
    u in w.pages && w.pages[u].File?
  }

  predicate IsIndex(w: World, u: Path) {
    u != [] && u[|u| - 1] == w.index
  }

  // The static branch of handle: what is there shadows its redirect.  For a directory
  // the file server redirects to the address with a slash, which stands for the index
  // file in it; a directory in the place of an index file is not a page.  Only a plain
  // "does not exist" leads to the redirects.
  function Handle(w: World, u: Path): Answer {
    if u in w.pages then
      match w.pages[u]
      case File(_, _) => Serves
      case Dir => if IsIndex(w, u) then NoPage else RedirectsTo(u + [w.index])
      case Symlink(_) => NoPage
    else if MissReason(w.pages, u) == NotExist && u in w.links then RedirectsTo(w.links[u])
    else NoPage
  }

  // A visitor who follows redirects from u is served a file within n hops.
  ghost predicate Reaches(w: World, u: Path, n: nat)
    decreases n
  {
    Handle(w, u).Serves? || (n > 0 && Handle(w, u).RedirectsTo? && Reaches(w, Handle(w, u).next, n - 1))
  }

  ghost predicate Works(w: World, u: Path) {
    exists n: nat :: Reaches(w, u, n)
  }

  lemma {:induction false} ReachesLonger(w: World, u: Path, n: nat, m: nat)
    requires Reaches(w, u, n) && n <= m
    ensures Reaches(w, u, m)
    decreases n
  {
    if !Handle(w, u).Serves? { ReachesLonger(w, Handle(w, u).next, n - 1, m - 1); }
  }

  // An address works if and only if it is a file or redirects to one that works.
  lemma WorksByNext(w: World, u: Path)
    ensures Works(w, u) <==> IsFile(w, u) || (Handle(w, u).RedirectsTo? && Works(w, Handle(w, u).next))
  {
    if IsFile(w, u) {
      assert Reaches(w, u, 0);
    } else if Handle(w, u).RedirectsTo? {
      if n: nat :| Reaches(w, u, n) { assert Reaches(w, Handle(w, u).next, n - 1); }
      if n: nat :| Reaches(w, Handle(w, u).next, n) { assert Reaches(w, u, n + 1); }
    }
  }

  // ---- why no link dangles ----

  // v is a file, or an old address whose redirect is later than that of u.
  ghost predicate LeadsOn(w: World, rank: map<Path, nat>, u: Path, v: Path)
    requires u in rank
  {
    IsFile(w, v) || (v in w.links && v in rank && rank[u] < rank[v])
  }

  // Each old address without a file redirects, to a file or to a later old address.
  ghost predicate Ranked(w: World, rank: map<Path, nat>) {
    forall u :: u in w.links && !IsFile(w, u) ==>
      u in rank && Handle(w, u).RedirectsTo? && LeadsOn(w, rank, u, Handle(w, u).next)
  }

  // The directories above a redirect's old address are still directories.
  ghost predicate LinksBelowDirs(w: World) {
    forall u :: u in w.links ==> u != [] && Parent(u) in w.pages && w.pages[Parent(u)].Dir?
  }

  ghost predicate KeepsWorking(w: World) {
    Closed(w.pages) && LinksBelowDirs(w) && exists rank :: Ranked(w, rank)
  }

  ghost function Later(w: World, rank: map<Path, nat>, n: nat): set<Path> {
    set u | u in w.links && u in rank && rank[u] >= n
  }

  lemma ReachesFile(w: World, u: Path)
    requires IsFile(w, u)
    ensures Reaches(w, u, 0)
  {
  }

  lemma ReachesVia(w: World, u: Path, v: Path, n: nat)
    requires Handle(w, u) == RedirectsTo(v) && Reaches(w, v, n)
    ensures Reaches(w, u, n + 1)
  {
  }

  lemma {:induction false} FollowRanks(w: World, rank: map<Path, nat>, u: Path)
    requires Ranked(w, rank) && u in w.links && u in rank
    ensures Reaches(w, u, |Later(w, rank, rank[u])|)
    decreases |Later(w, rank, rank[u])|
  {
    var n := |Later(w, rank, rank[u])|;
    if IsFile(w, u) {
      ReachesFile(w, u);
      ReachesLonger(w, u, 0, n);
    } else {
      FewerLater(w, rank, u);
      var v := NextOf(w, rank, u);
      if IsFile(w, v) {
        ReachesFile(w, v);
        ReachesVia(w, u, v, 0);
        ReachesLonger(w, u, 1, n);
      } else {
        LaterShrinks(w, rank, u, v);
        FollowRanks(w, rank, v);
        ReachesVia(w, u, v, |Later(w, rank, rank[v])|);
        ReachesLonger(w, u, |Later(w, rank, rank[v])| + 1, n);
      }
    }
  }

  lemma NextOf(w: World, rank: map<Path, nat>, u: Path) returns (v: Path)
    requires Ranked(w, rank) && u in w.links && !IsFile(w, u)
    ensures u in rank && Handle(w, u) == RedirectsTo(v) && LeadsOn(w, rank, u, v)
  {
    v := Handle(w, u).next;
  }

  lemma FewerLater(w: World, rank: map<Path, nat>, u: Path)
    requires u in w.links && u in rank
    ensures |Later(w, rank, rank[u])| > 0
  {
    assert u in Later(w, rank, rank[u]);
  }

  lemma LaterShrinks(w: World, rank: map<Path, nat>, u: Path, v: Path)
    requires u in w.links && u in rank && v in rank && rank[u] < rank[v]
    ensures |Later(w, rank, rank[v])| < |Later(w, rank, rank[u])|
  {
    var later, rest := Later(w, rank, rank[u]), Later(w, rank, rank[v]);
    assert u in later && rest <= later - {u};
    CardinalityOfSubset(rest, later - {u});
  }

  lemma {:induction false} CardinalityOfSubset<T>(a: set<T>, b: set<T>)
    requires a <= b
    ensures |a| <= |b|
    decreases b
  {
    if a != {} {
      var x :| x in a;
      CardinalityOfSubset(a - {x}, b - {x});
    }
  }

  // Every address that has a redirect reaches a file, in at most as many hops as
  // there are redirects, although the redirects may form cycles.
  lemma OldAddressesWork(w: World, u: Path)
    requires KeepsWorking(w) && u in w.links
    ensures Reaches(w, u, |w.links|)
  {
    var rank :| Ranked(w, rank);
    if !IsFile(w, u) {
      FollowRanks(w, rank, u);
      CardinalityOfSubset(Later(w, rank, rank[u]), w.links.Keys);
      ReachesLonger(w, u, |Later(w, rank, rank[u])|, |w.links|);
    }
  }

  // ---- the steps a site goes through ----

  // A rename of an existing page, with its redirect saved.
  ghost predicate RenameStep(w: World, w': World, a: Path, b: Path, mid: Tree) {
    && IsFile(w, a) && RenamedTo(w.pages, w'.pages, a, b, mid) && Closed(w'.pages)
    && w'.links == w.links[a := b] && w'.index == w.index
  }

  // Creating or editing a page, as far as it gets: directories above it are made down
  // to `made`, and `written` tells whether the page is there.
  ghost predicate WriteStep(w: World, w': World, p: Path, content: string, mode: nat, made: Path, written: bool) {
    && p != [] && made <= Parent(p) && made in w'.pages
    && OnlyWrote(w.pages, w'.pages, p, File(content, mode)) && Closed(w'.pages)
    && (forall q :: q in w'.pages && q !in w.pages && q != p ==> q <= made)
    && (if written then made == Parent(p) && IsFile(w', p)
        else p in w'.pages ==> p in w.pages && w'.pages[p] == w.pages[p])
    && w'.links == w.links && w'.index == w.index
  }

  // A rename that failed with the page back in place: directories may have been made
  // down to `made`, and the new redirect may be there all the same.
  ghost predicate FailedStep(w: World, w': World, a: Path, b: Path, made: Path) {
    && IsFile(w, a) && made in w'.pages && OnlyDirsAdded(w.pages, w'.pages, made) && Closed(w'.pages)
    && (w'.links == w.links || w'.links == w.links[a := b]) && w'.index == w.index
  }

  datatype Change =
    | Renaming(source: Path, target: Path, mid: Tree)
    | Writing(path: Path, content: string, mode: nat, made: Path, written: bool)
    | Failing(source: Path, target: Path, made: Path)

  ghost predicate StepBy(w: World, w': World, change: Change) {
    match change
    case Renaming(a, b, mid) => RenameStep(w, w', a, b, mid)
    case Writing(p, content, mode, made, written) => WriteStep(w, w', p, content, mode, made, written)
    case Failing(a, b, made) => FailedStep(w, w', a, b, made)
  }

  ghost predicate Step(w: World, w': World) {
    exists change :: StepBy(w, w', change)
  }

  // How far down a change makes directories, and the file it puts there.
  function Made(change: Change): Path {
    match change
    case Renaming(_, b, _) => if b == [] then [] else Parent(b)
    case Writing(_, _, _, made, _) => made
    case Failing(_, _, made) => made
  }

  function Put(change: Change): Option<Path> {
    match change
    case Renaming(_, b, _) => Some(b)
    case Writing(p, _, _, _, written) => if written then Some(p) else None
    case Failing(_, _, _) => None
  }

  // An old address with nothing in its place.
  predicate Away(w: World, u: Path) {
    u in w.links && u !in w.pages
  }

  // No directory is made in the place of an old address whose page is away, unless
  // what is put there is its index file.
  predicate Harmless(w: World, change: Change) {
    forall u | u in w.links && Away(w, u) && u <= Made(change) ::
      Put(change) == Some(u + [w.index]) && !IsIndex(w, u)
  }

  // ---- what the steps have in common ----

  ghost predicate Effect(w: World, w': World, change: Change) {
    && Closed(w'.pages) && w'.index == w.index
    && (forall q :: q in w.pages && (change.Renaming? ==> q != change.source) ==>
          q in w'.pages && (w'.pages[q] == w.pages[q] || (Put(change) == Some(q) && w'.pages[q].File? && !w.pages[q].Dir?)))
    && (forall q :: q in w'.pages && q !in w.pages ==>
          (q <= Made(change) && w'.pages[q] == Dir) || (Put(change) == Some(q) && w'.pages[q].File?))
    && Made(change) in w'.pages
    && (Put(change).Some? ==>
          IsFile(w', Put(change).value) && Put(change).value != [] && Parent(Put(change).value) == Made(change))
    && LinksEffect(w, w', change)
  }

  ghost predicate LinksEffect(w: World, w': World, change: Change) {
    match change
    case Renaming(a, b, _) => IsFile(w, a) && a !in w'.pages && w'.links == w.links[a := b]
    case Writing(_, _, _, _, _) => w'.links == w.links
    case Failing(a, b, _) => IsFile(w, a) && (w'.links == w.links || w'.links == w.links[a := b])
  }

  lemma PrefixThrough(a: Path, o: Path, p: Path)
    ensures a <= o && o <= p ==> a <= p
  {
  }

  // Making directories above b puts nothing below the file a.
  lemma NothingBelowFile(t: Tree, a: Path, b: Path, mid: Tree, o: Path)
    requires Closed(t) && a in t && t[a].File? && b != [] && !(a <= b) && OnlyDirsAdded(t, mid, Parent(b))
    ensures o in mid && a <= o ==> o == a
  {
    if o in t && Above(a, o) { AncestorsAreDirs(t, a, o); }
    PrefixThrough(a, o, Parent(b));
    BelowParent(a, b);
  }

  // What a rename of a file does to every node: the file is at b, directories may
  // have come above it, all else is as it was.
  lemma RenamedNode(t: Tree, t': Tree, a: Path, b: Path, mid: Tree, q: Path)
    requires Closed(t) && a in t && t[a].File? && RenamedTo(t, t', a, b, mid)
    ensures q != a && q != b && q in t ==> q in t' && t'[q] == t[q]
    ensures q != b && q in t' && q !in t ==> q <= Parent(b) && t'[q] == Dir
    ensures q == a ==> q !in t'
    ensures q == b ==> q in t' && t'[q] == t[a]
  {
    MovedNodes(mid, a, b);
    NothingBelowFile(t, a, b, mid, q);
    if b <= q {
      RebaseBack(q, b, a);
      NothingBelowFile(t, a, b, mid, Rebase(q, b, a));
      assert Rebase(a, a, b) == b && Rebase(b, b, a) == a;
    }
  }

  ghost predicate NodesRenamed(t: Tree, t': Tree, a: Path, b: Path)
    requires a in t && b != []
  {
    && (forall q :: q in t && q != a && q != b ==> q in t' && t'[q] == t[q])
    && (forall q :: q in t' && q !in t && q != b ==> q <= Parent(b) && t'[q] == Dir)
    && a !in t' && b !in t && b in t' && t'[b] == t[a]
  }

  lemma FileRenamed(t: Tree, t': Tree, a: Path, b: Path, mid: Tree)
    requires Closed(t) && a in t && t[a].File? && RenamedTo(t, t', a, b, mid)
    ensures NodesRenamed(t, t', a, b)
  {
    forall q
      ensures q != a && q != b && q in t ==> q in t' && t'[q] == t[q]
      ensures q != b && q in t' && q !in t ==> q <= Parent(b) && t'[q] == Dir
    {
      RenamedNode(t, t', a, b, mid, q);
    }
    RenamedNode(t, t', a, b, mid, a);
    RenamedNode(t, t', a, b, mid, b);
  }

  lemma NodesRenamedEffect(w: World, w': World, a: Path, b: Path, mid: Tree)
    requires Closed(w.pages) && Closed(w'.pages) && IsFile(w, a) && b != [] && NodesRenamed(w.pages, w'.pages, a, b)
    requires w'.links == w.links[a := b] && w'.index == w.index
    ensures Effect(w, w', Renaming(a, b, mid))
  {
  }

  lemma RenameEffect(w: World, w': World, a: Path, b: Path, mid: Tree)
    requires Closed(w.pages) && RenameStep(w, w', a, b, mid)
    ensures Effect(w, w', Renaming(a, b, mid))
  {
    FileRenamed(w.pages, w'.pages, a, b, mid);
    NodesRenamedEffect(w, w', a, b, mid);
  }

  lemma WriteEffect(w: World, w': World, p: Path, content: string, mode: nat, made: Path, written: bool)
    requires Closed(w.pages) && WriteStep(w, w', p, content, mode, made, written)
    ensures Effect(w, w', Writing(p, content, mode, made, written))
  {
  }

  lemma FailedEffect(w: World, w': World, a: Path, b: Path, made: Path)
    requires Closed(w.pages) && FailedStep(w, w', a, b, made)
    ensures Effect(w, w', Failing(a, b, made))
  {
  }

  lemma StepEffect(w: World, w': World, change: Change)
    requires Closed(w.pages) && StepBy(w, w', change)
    ensures Effect(w, w', change)
  {
    match change
    case Renaming(a, b, mid) => RenameEffect(w, w', a, b, mid);
    case Writing(p, content, mode, made, written) => WriteEffect(w, w', p, content, mode, made, written);
    case Failing(a, b, made) => FailedEffect(w, w', a, b, made);
  }

  lemma LinksStayBelowDirs(w: World, w': World, change: Change)
    requires Closed(w.pages) && LinksBelowDirs(w) && Effect(w, w', change)
    ensures LinksBelowDirs(w')
  {
  }

  // The rank of a new redirect is above all others: it leads to the page itself.
  ghost function NewRank(rank: map<Path, nat>, change: Change): map<Path, nat> {
    if change.Renaming? then rank[change.source := Highest(rank) + 1] else rank
  }

  lemma StillLeadsOn(w: World, w': World, change: Change, rank: map<Path, nat>, u: Path, v: Path)
    requires Effect(w, w', change) && u in rank && LeadsOn(w, rank, u, v) && (change.Renaming? ==> u != change.source)
    ensures LeadsOn(w', NewRank(rank, change), u, v)
  {
    HighestBounds(rank, u);
  }

  lemma RankedAt(w: World, w': World, change: Change, rank: map<Path, nat>, u: Path)
    requires Closed(w.pages) && LinksBelowDirs(w) && LinksBelowDirs(w') && Ranked(w, rank)
    requires Effect(w, w', change) && Harmless(w, change) && u in w'.links && !IsFile(w', u)
    ensures var rank' := NewRank(rank, change);
      u in rank' && Handle(w', u).RedirectsTo? && LeadsOn(w', rank', u, Handle(w', u).next)
  {
    if !(change.Renaming? && u == change.source) {
      assert u in w.links && !IsFile(w, u);
      StillLeadsOn(w, w', change, rank, u, Handle(w, u).next);
      if u !in w.pages && u in w'.pages {
        assert Away(w, u);
      }
    }
  }

  lemma HarmlessKeepsWorking(w: World, w': World, change: Change)
    requires KeepsWorking(w) && StepBy(w, w', change) && Harmless(w, change)
    ensures KeepsWorking(w')
  {
    StepEffect(w, w', change);
    LinksStayBelowDirs(w, w', change);
    var rank :| Ranked(w, rank);
    var rank' := NewRank(rank, change);
    forall u | u in w'.links && !IsFile(w', u)
      ensures u in rank' && Handle(w', u).RedirectsTo? && LeadsOn(w', rank', u, Handle(w', u).next)
    {
      RankedAt(w, w', change, rank, u);
    }
    assert Ranked(w', rank');
  }

  // A harmful step leaves an old address at a directory without an index file.
  lemma HarmLeavesDirectory(w: World, w': World, change: Change, u: Path)
    requires Closed(w.pages) && LinksBelowDirs(w) && Effect(w, w', change)
    requires Away(w, u) && u <= Made(change) && !(Put(change) == Some(u + [w.index]) && !IsIndex(w, u))
    ensures u in w'.links && u in w'.pages && w'.pages[u].Dir?
    ensures !IsIndex(w', u) ==> u + [w.index] !in w'.links && !IsFile(w', u + [w.index])
  {
    if u != Made(change) { AncestorsAreDirs(w'.pages, u, Made(change)); }
    var v := u + [w.index];
    assert Parent(v) == u;
  }

  lemma BareDirectoryBreaks(w: World, u: Path)
    requires Closed(w.pages) && u in w.pages && w.pages[u].Dir?
    requires !IsIndex(w, u) ==> u + [w.index] !in w.links && !IsFile(w, u + [w.index])
    ensures !Works(w, u)
  {
    var v := u + [w.index];
    WorksByNext(w, u);
    WorksByNext(w, v);
  }

  lemma HarmBreaks(w: World, w': World, change: Change, u: Path)
    requires Closed(w.pages) && LinksBelowDirs(w) && StepBy(w, w', change)
    requires Away(w, u) && u <= Made(change) && !(Put(change) == Some(u + [w.index]) && !IsIndex(w, u))
    ensures u in w'.links && !Works(w', u)
  {
    StepEffect(w, w', change);
    HarmLeavesDirectory(w, w', change, u);
    BareDirectoryBreaks(w', u);
  }

  ghost function Highest(rank: map<Path, nat>): nat
    decreases rank.Keys
  {
    if rank == map[] then 0
    else
      var u :| u in rank;
      var rest := Highest(rank - {u});
      if rest < rank[u] then rank[u] else rest
  }

  lemma {:induction false} HighestBounds(rank: map<Path, nat>, v: Path)
    requires v in rank
    ensures rank[v] <= Highest(rank)
    decreases rank.Keys
  {
    var u :| u in rank && Highest(rank) == (var rest := Highest(rank - {u}); if rest < rank[u] then rank[u] else rest);
    if v != u { HighestBounds(rank - {u}, v); }
  }

  // ---- runs ----

  // World i becomes world i + 1 by change i.
  ghost predicate StepAt(worlds: seq<World>, changes: seq<Change>, i: int)
    requires 0 <= i < |changes| && |worlds| == |changes| + 1
  {
    StepBy(worlds[i], worlds[i + 1], changes[i])
  }

  // A run may begin at any site whose redirects work, such as one without redirects.
  ghost predicate IsRun(worlds: seq<World>, changes: seq<Change>) {
    && |worlds| == |changes| + 1 && KeepsWorking(worlds[0])
    && forall i :: 0 <= i < |changes| ==> StepAt(worlds, changes, i)
  }

  lemma NoLinksWork(w: World)
    requires Closed(w.pages) && w.links == map[]
    ensures KeepsWorking(w)
  {
    assert Ranked(w, map[]);
  }

  ghost predicate HarmlessUpTo(worlds: seq<World>, changes: seq<Change>, j: nat)
    requires |worlds| == |changes| + 1 && j <= |changes|
  {
    forall k :: 0 <= k < j ==> Harmless(worlds[k], changes[k])
  }

  lemma {:induction false} RunKeepsWorking(worlds: seq<World>, changes: seq<Change>, j: nat)
    requires IsRun(worlds, changes) && j <= |changes| && HarmlessUpTo(worlds, changes, j)
    ensures KeepsWorking(worlds[j])
  {
    if j > 0 {
      RunKeepsWorking(worlds, changes, j - 1);
      assert StepAt(worlds, changes, j - 1);
      HarmlessKeepsWorking(worlds[j - 1], worlds[j], changes[j - 1]);
    }
  }

  // A page, or an address that was one and was redirected.
  ghost predicate Known(w: World, u: Path) {
    IsFile(w, u) || u in w.links
  }

  lemma StepKeepsKnown(w: World, w': World, change: Change, u: Path)
    requires Effect(w, w', change) && Known(w, u)
    ensures Known(w', u)
  {
  }

  lemma {:induction false} RunIsClosed(worlds: seq<World>, changes: seq<Change>, j: nat)
    requires IsRun(worlds, changes) && j <= |changes|
    ensures Closed(worlds[j].pages)
  {
    if j > 0 {
      RunIsClosed(worlds, changes, j - 1);
      assert StepAt(worlds, changes, j - 1);
      StepEffect(worlds[j - 1], worlds[j], changes[j - 1]);
    }
  }

  // Once an address is a page or has a redirect, it stays one or the other.
  lemma {:induction false} KnownStaysKnown(worlds: seq<World>, changes: seq<Change>, i: nat, j: nat, u: Path)
    requires IsRun(worlds, changes) && i <= j < |worlds| && Known(worlds[i], u)
    ensures Known(worlds[j], u)
    decreases j
  {
    if i < j {
      KnownStaysKnown(worlds, changes, i, j - 1, u);
      RunIsClosed(worlds, changes, j - 1);
      assert StepAt(worlds, changes, j - 1);
      StepEffect(worlds[j - 1], worlds[j], changes[j - 1]);
      StepKeepsKnown(worlds[j - 1], worlds[j], changes[j - 1], u);
    }
  }

  // In every run of renames of existing pages, page creations, edits and failed
  // renames, none of them harmful, an address that was ever a page, or ever
  // redirected, reaches a file in at most as many hops as there are redirects.
  lemma OldPagesKeepWorking(worlds: seq<World>, changes: seq<Change>, i: nat, j: nat, u: Path)
    requires IsRun(worlds, changes) && i <= j < |worlds| && Known(worlds[i], u)
    requires HarmlessUpTo(worlds, changes, j)
    ensures Reaches(worlds[j], u, |worlds[j].links|)
  {
    KnownStaysKnown(worlds, changes, i, j, u);
    RunKeepsWorking(worlds, changes, j);
    if IsFile(worlds[j], u) {
      ReachesFile(worlds[j], u);
      ReachesLonger(worlds[j], u, 0, |worlds[j].links|);
    } else {
      OldAddressesWork(worlds[j], u);
    }
  }

  // Every address that is or was a page reaches a file.
  ghost predicate KnownWork(w: World) {
    forall u :: Known(w, u) ==> Works(w, u)
  }

  // The promise, exactly: old pages keep working throughout a run if and only if no
  // step of it makes a directory in the place of an old address whose page is away,
  // other than for its index file.
  lemma OldPagesWorkIff(worlds: seq<World>, changes: seq<Change>)
    requires IsRun(worlds, changes)
    ensures (forall j :: 0 <= j < |worlds| ==> KnownWork(worlds[j])) <==> HarmlessUpTo(worlds, changes, |changes|)
  {
    if HarmlessUpTo(worlds, changes, |changes|) {
      forall j | 0 <= j < |worlds| ensures KnownWork(worlds[j]) {
        HarmlessMeansKnownWork(worlds, changes, j);
      }
    } else {
      var k := FirstHarm(worlds, changes, |changes|);
      HarmShows(worlds, changes, k);
    }
  }

  lemma HarmlessMeansKnownWork(worlds: seq<World>, changes: seq<Change>, j: nat)
    requires IsRun(worlds, changes) && j <= |changes| && HarmlessUpTo(worlds, changes, j)
    ensures KnownWork(worlds[j])
  {
    forall u | Known(worlds[j], u) ensures Works(worlds[j], u) {
      OldPagesKeepWorking(worlds, changes, j, j, u);
    }
  }

  lemma {:induction false} FirstHarm(worlds: seq<World>, changes: seq<Change>, j: nat) returns (k: nat)
    requires |worlds| == |changes| + 1 && j <= |changes| && !HarmlessUpTo(worlds, changes, j)
    ensures k < j && HarmlessUpTo(worlds, changes, k) && !Harmless(worlds[k], changes[k])
  {
    if HarmlessUpTo(worlds, changes, j - 1) { return j - 1; }
    k := FirstHarm(worlds, changes, j - 1);
  }

  lemma HarmShows(worlds: seq<World>, changes: seq<Change>, k: nat)
    requires IsRun(worlds, changes) && k < |changes|
    requires HarmlessUpTo(worlds, changes, k) && !Harmless(worlds[k], changes[k])
    ensures !KnownWork(worlds[k + 1])
  {
    var w, change := worlds[k], changes[k];
    RunKeepsWorking(worlds, changes, k);
    assert StepAt(worlds, changes, k);
    var u :| u in w.links && Away(w, u) && u <= Made(change) &&
      !(Put(change) == Some(u + [w.index]) && !IsIndex(w, u));
    HarmBreaks(w, worlds[k + 1], change, u);
    assert Known(worlds[k + 1], u);
  }

  // A page at the top of a site without redirects, the site after its rename, and
  // after a page was then created below the old address.
  function OnePage(a: string, page: Node, index: string): World {
    World(map[[] := Dir, [a] := page], map[], index)
  }

  function AfterRename(a: string, b: string, page: Node, index: string): World {
    World(map[[] := Dir, [b] := page], map[[a] := [b]], index)
  }

  function AfterCreation(a: string, b: string, x: string, page: Node, index: string): World {
    var w := AfterRename(a, b, page, index);
    w.(pages := w.pages[[a] := Dir][[a, x] := page])
  }

  // A run in which it fails: /a is renamed to /b, then /a/x is created.  Now a is a
  // directory without an index file, which hides the redirect.
  lemma CreatingBelowAnOldAddressBreaks(a: string, b: string, x: string, page: Node, index: string)
      returns (worlds: seq<World>, changes: seq<Change>)
    requires a != b && x != index && page.File?
    ensures IsRun(worlds, changes) && |worlds| == 3 && IsFile(worlds[0], [a])
    ensures Works(worlds[1], [a]) && !Works(worlds[2], [a])
  {
    var w0, w1, w2 := OnePage(a, page, index), AfterRename(a, b, page, index), AfterCreation(a, b, x, page, index);
    var c0, c1 := Renaming([a], [b], w0.pages), Writing([a, x], page.content, page.mode, [a], true);
    worlds, changes := [w0, w1, w2], [c0, c1];
    RenameAtTop(a, b, page, index);
    CreateBelowTop(a, b, x, page, index);
    NoLinksWork(w0);
    RunOfTwo(worlds, changes);
    HarmlessKeepsWorking(w0, w1, c0);
    HarmBreaks(w1, w2, c1, [a]);
    OldAddressesWork(w1, [a]);
  }

  lemma RunOfTwo(worlds: seq<World>, changes: seq<Change>)
    requires |worlds| == 3 && |changes| == 2 && KeepsWorking(worlds[0])
    requires StepBy(worlds[0], worlds[1], changes[0]) && StepBy(worlds[1], worlds[2], changes[1])
    ensures IsRun(worlds, changes)
  {
    assert StepAt(worlds, changes, 0) && StepAt(worlds, changes, 1);
  }

  lemma TopIsClosed(a: string, page: Node)
    ensures Closed(map[[] := Dir, [a] := page])
  {
    assert Parent([a]) == [];
  }

  lemma RenamedAtTop(t: Tree, t': Tree, a: string, b: string, page: Node)
    requires a != b && t == map[[] := Dir, [a] := page] && t' == map[[] := Dir, [b] := page]
    ensures RenamedTo(t, t', [a], [b], t)
  {
    assert [a][0] != [b][0];
    MovedAtTop(t, a, b, page);
  }

  lemma RenameAtTop(a: string, b: string, page: Node, index: string)
    requires a != b && page.File?
    ensures var w := OnePage(a, page, index);
      Closed(w.pages) && StepBy(w, AfterRename(a, b, page, index), Renaming([a], [b], w.pages))
  {
    var w, w' := OnePage(a, page, index), AfterRename(a, b, page, index);
    TopIsClosed(a, page);
    TopIsClosed(b, page);
    RenamedAtTop(w.pages, w'.pages, a, b, page);
    assert w'.links == w.links[[a] := [b]];
    assert RenameStep(w, w', [a], [b], w.pages);
  }

  lemma MovedAtTop(t: Tree, a: string, b: string, page: Node)
    requires a != b && t == map[[] := Dir, [a] := page]
    ensures Moved(t, [a], [b]) == map[[] := Dir, [b] := page]
  {
    forall q ensures q in Moved(t, [a], [b]) <==> q == [] || q == [b] {
      MovedAtTopNode(t, a, b, page, q);
    }
    MovedAtTopNode(t, a, b, page, []);
    MovedAtTopNode(t, a, b, page, [b]);
  }

  lemma MovedAtTopNode(t: Tree, a: string, b: string, page: Node, q: Path)
    requires a != b && t == map[[] := Dir, [a] := page]
    ensures q in Moved(t, [a], [b]) <==> q == [] || q == [b]
    ensures q == [] ==> Moved(t, [a], [b])[q] == Dir
    ensures q == [b] ==> Moved(t, [a], [b])[q] == page
  {
    MovedNodes(t, [a], [b]);
    if [b] <= q {
      RebaseBack(q, [b], [a]);
      assert Rebase([a], [a], [b]) == [b] && Rebase([b], [b], [a]) == [a];
    }
  }

  lemma CreatedBelowTop(t: Tree, t': Tree, a: string, x: string, page: Node)
    requires Closed(t) && [a] !in t && page.File? && t' == t[[a] := Dir][[a, x] := page]
    ensures Closed(t') && OnlyWrote(t, t', [a, x], page) && [a] in t'
    ensures forall q :: q in t' && q !in t && q != [a, x] ==> q <= [a]
  {
    assert Parent([a, x]) == [a] && Parent([a]) == [];
    assert [a] == [a, x][..1];
    NothingBelowMissing(t, [a]);
  }

  lemma CreateBelowTop(a: string, b: string, x: string, page: Node, index: string)
    requires a != b && x != index && page.File?
    ensures var w, c := AfterRename(a, b, page, index), Writing([a, x], page.content, page.mode, [a], true);
      StepBy(w, AfterCreation(a, b, x, page, index), c)
      && Away(w, [a]) && [a] <= Made(c) && Put(c) != Some([a] + [w.index])
  {
    var w, w' := AfterRename(a, b, page, index), AfterCreation(a, b, x, page, index);
    assert [a][0] != [b][0] && [a, x][1] != ([a] + [index])[1] && Parent([a, x]) == [a];
    TopIsClosed(b, page);
    CreatedBelowTop(w.pages, w'.pages, a, x, page);
    assert WriteStep(w, w', [a, x], page.content, page.mode, [a], true);
  }

  // ---- every outcome is a step ----

  // The last of the directories above p that are there.
  function DeepestIn(t: Tree, p: Path): (made: Path)
    requires [] in t
    ensures made <= p && made in t
  {
    if p in t then p else DeepestIn(t, Parent(p))
  }

  lemma {:induction false} DeepestIsLast(t: Tree, p: Path, q: Path)
    requires [] in t && q <= p && q in t
    ensures q <= DeepestIn(t, p)
  {
    if p !in t {
      PrefixOfParent(q, p);
      DeepestIsLast(t, Parent(p), q);
    }
  }

  // Whatever a write leaves behind, some `made` and `written` describe it.
  lemma WriteIsStep(w: World, w': World, p: Path, content: string, mode: nat) returns (change: Change)
    requires Closed(w.pages) && p != [] && OnlyWrote(w.pages, w'.pages, p, File(content, mode)) && Closed(w'.pages)
    requires w'.links == w.links && w'.index == w.index
    ensures StepBy(w, w', change)
    ensures IsFile(w', p) ==> Made(change) == Parent(p) && Put(change) == Some(p)
  {
    var made := DeepestIn(w'.pages, Parent(p));
    var written := IsFile(w', p);
    forall q | q in w'.pages && q !in w.pages && q != p ensures q <= made {
      PrefixOfParent(q, p);
      DeepestIsLast(w'.pages, Parent(p), q);
    }
    change := Writing(p, content, mode, made, written);
  }

  // Whatever a failed rename leaves behind, some `made` describes it.
  // No old address whose page is away is in the way of a new page at p.
  ghost predicate Spared(w: World, p: Path)
    requires p != []
  {
    forall u :: u in w.links && Away(w, u) && u <= Parent(p) ==> p == u + [w.index] && !IsIndex(w, u)
  }

  // A page put in place keeps every old address working if and only if it spares them.
  lemma PutKeepsWorkingIff(w: World, w': World, p: Path, content: string, mode: nat)
    requires KeepsWorking(w) && p != [] && OnlyWrote(w.pages, w'.pages, p, File(content, mode)) && Closed(w'.pages)
    requires w'.links == w.links && w'.index == w.index && IsFile(w', p)
    ensures KeepsWorking(w') <==> Spared(w, p)
  {
    var change := WriteIsStep(w, w', p, content, mode);
    if Spared(w, p) {
      HarmlessKeepsWorking(w, w', change);
    } else {
      var u :| u in w.links && Away(w, u) && u <= Parent(p) && !(p == u + [w.index] && !IsIndex(w, u));
      HarmBreaks(w, w', change, u);
      if KeepsWorking(w') { OldAddressesWork(w', u); }
    }
  }

  lemma FailureIsStep(w: World, w': World, a: Path, b: Path) returns (change: Change)
    requires Closed(w.pages) && IsFile(w, a) && b != [] && OnlyDirsAdded(w.pages, w'.pages, Parent(b)) && Closed(w'.pages)
    requires (w'.links == w.links || w'.links == w.links[a := b]) && w'.index == w.index
    ensures StepBy(w, w', change)
  {
    var made := DeepestIn(w'.pages, Parent(b));
    forall q | q in w'.pages && q !in w.pages ensures q <= made {
      DeepestIsLast(w'.pages, Parent(b), q);
    }
    change := Failing(a, b, made);
  }

  // ---- renaming a page that is not there ----

  ghost predicate EveryLinkWorks(w: World) {
    forall u :: u in w.links ==> Works(w, u)
  }

  function WithLink(w: World, a: Path, b: Path): World {
    w.(links := w.links[a := b])
  }

  function WithoutLink(w: World, a: Path): World {
    w.(links := w.links - {a})
  }

  // renameStaticFile reports success for a missing source, so the redirect is saved.
  ghost predicate MissingSourceStep(w: World, w': World, a: Path, b: Path) {
    && a !in w.pages && MissReason(w.pages, a) == NotExist
    && b !in w.pages && MissReason(w.pages, b) == NotExist && a != b
    && w' == WithLink(w, a, b)
  }

  // With the new link a -> b, a way to a page either never meets a, or contains a
  // shorter way from b.
  lemma {:induction false} AvoidsOrRestarts(w: World, a: Path, b: Path, u: Path, n: nat)
    requires a !in w.pages && MissReason(w.pages, a) == NotExist && Reaches(WithLink(w, a, b), u, n)
    ensures Reaches(WithoutLink(w, a), u, n) || (n > 0 && Reaches(WithLink(w, a, b), b, n - 1))
    decreases n
  {
    if !IsFile(w, u) {
      if u == a {
        assert Handle(WithLink(w, a, b), a) == RedirectsTo(b);
      } else {
        var v := Handle(WithLink(w, a, b), u).next;
        assert Handle(WithoutLink(w, a), u) == RedirectsTo(v);
        AvoidsOrRestarts(w, a, b, v, n - 1);
        if n > 1 && Reaches(WithLink(w, a, b), b, n - 2) { ReachesLonger(WithLink(w, a, b), b, n - 2, n - 1); }
      }
    }
  }

  lemma {:induction false} TargetAvoidsSource(w: World, a: Path, b: Path, n: nat)
    requires a !in w.pages && MissReason(w.pages, a) == NotExist && Reaches(WithLink(w, a, b), b, n)
    ensures Works(WithoutLink(w, a), b)
    decreases n
  {
    AvoidsOrRestarts(w, a, b, b, n);
    if !Reaches(WithoutLink(w, a), b, n) { TargetAvoidsSource(w, a, b, n - 1); }
  }

  lemma {:induction false} AvoidingWorks(w: World, a: Path, b: Path, u: Path, n: nat)
    requires a !in w.pages && Reaches(WithoutLink(w, a), u, n)
    ensures Reaches(WithLink(w, a, b), u, n)
    decreases n
  {
    if !IsFile(w, u) {
      var v := Handle(WithoutLink(w, a), u).next;
      assert Handle(WithLink(w, a, b), u) == RedirectsTo(v);
      AvoidingWorks(w, a, b, v, n - 1);
    }
  }

  lemma SourceWorks(w: World, a: Path, b: Path)
    requires a !in w.pages && MissReason(w.pages, a) == NotExist && Works(WithoutLink(w, a), b)
    ensures Works(WithLink(w, a, b), a)
  {
    var m: nat :| Reaches(WithoutLink(w, a), b, m);
    AvoidingWorks(w, a, b, b, m);
    ReachesVia(WithLink(w, a, b), a, b, m);
  }

  // A way under the old links gives one under the new ones.
  lemma {:induction false} DetourWorks(w: World, a: Path, b: Path, u: Path, n: nat)
    requires a !in w.pages && MissReason(w.pages, a) == NotExist
    requires Works(WithoutLink(w, a), b) && Reaches(w, u, n)
    ensures Works(WithLink(w, a, b), u)
    decreases n
  {
    if u == a {
      SourceWorks(w, a, b);
    } else if IsFile(w, u) {
      ReachesFile(WithLink(w, a, b), u);
    } else {
      var v := Handle(w, u).next;
      DetourWorks(w, a, b, v, n - 1);
      assert Handle(WithLink(w, a, b), u) == RedirectsTo(v);
      WorksByNext(WithLink(w, a, b), u);
    }
  }

  // Exactly when such a rename does no harm: the new address must already lead to
  // a file without passing the old one.
  lemma MissingSourceIsHarmlessIff(w: World, w': World, a: Path, b: Path)
    requires EveryLinkWorks(w) && MissingSourceStep(w, w', a, b)
    ensures EveryLinkWorks(w') <==> Works(WithoutLink(w, a), b)
  {
    if EveryLinkWorks(w') {
      assert a in w'.links && Handle(w', a) == RedirectsTo(b);
      var n: nat :| Reaches(w', a, n);
      TargetAvoidsSource(w, a, b, n - 1);
    }
    if Works(WithoutLink(w, a), b) {
      forall u | u in w'.links ensures Works(w', u) {
        if u == a {
          SourceWorks(w, a, b);
        } else {
          var n: nat :| Reaches(w, u, n);
          DetourWorks(w, a, b, u, n);
        }
      }
    }
  }

  // The smallest case: an empty site, and an address that now leads nowhere.
  lemma MissingSourceBreaks(a: string, b: string, index: string) returns (w: World, w': World)
    requires a != b
    ensures KeepsWorking(w) && MissingSourceStep(w, w', [a], [b])
    ensures Handle(w', [a]) == RedirectsTo([b]) && Handle(w', [b]) == NoPage && !Works(w', [a])
  {
    w := World(map[[] := Dir], map[], index);
    w' := WithLink(w, [a], [b]);
    assert Parent([a]) == [] && Parent([b]) == [];
    NoLinksWork(w);
    WorksByNext(w', [b]);
    WorksByNext(w', [a]);
  }
}
