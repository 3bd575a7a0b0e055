// Runs of everything that happens to a site: renames of pages, directories and missing
// pages, new and edited pages, and whatever failures leave behind.  An address that ever
// led a visitor to a page should always do so.

module SiteRuns {
  import opened FilePaths
  import opened FileTree
  import opened PageRenames
  import opened OldAddresses
  import opened Foresight
  import opened NodeMoves

  // Moving the node at d to e, or adding: directories down to `made`, perhaps a file and
  // perhaps a redirect.
  datatype Event =
    | Move(d: Path, e: Path, mid: Tree, linked: bool)
    | Add(made: Path, put: Option<Path>, link: Option<(Path, Path)>)

  function NewLinks(w: World, link: Option<(Path, Path)>): map<Path, Path> {
    match link
    case None => w.links
    case Some((a, b)) => w.links[a := b]
  }

  ghost predicate AddStep(w: World, w': World, made: Path, put: Option<Path>, link: Option<(Path, Path)>) {
    && Closed(w'.pages) && made in w'.pages && w'.index == w.index && w'.links == NewLinks(w, link)
    && (put.Some? ==> IsFile(w', put.value))
    && (forall q :: q in w.pages ==>
          q in w'.pages && (w'.pages[q] == w.pages[q] || (put == Some(q) && !w.pages[q].Dir?)))
    && (forall q :: q in w'.pages && q !in w.pages ==> put == Some(q) || (q <= made && w'.pages[q] == Dir))
  }

  ghost predicate EventStep(w: World, w': World, event: Event) {
    match event
    case Move(d, e, mid, linked) => MoveStep(w, w', d, e, mid, linked)
    case Add(made, put, link) => AddStep(w, w', made, put, link)
  }

  ghost predicate Happens(w: World, w': World) {
    exists event :: EventStep(w, w', event)
  }

  // ---- what adding makes a visitor meet ----

  // A file put above u ends the way there.
  predicate PutAbove(put: Option<Path>, u: Path) {
    put.Some? && Above(put.value, u)
  }

  function AddForeseen(w: World, made: Path, put: Option<Path>, link: Option<(Path, Path)>, u: Path): Answer {
    if put == Some(u) then Serves
    else if u !in w.pages && u <= made then OfDirectory(w, u)
    else if PutAbove(put, u) then NoPage
    else Handle(w.(links := NewLinks(w, link)), u)
  }

  function AddForecast(w: World, made: Path, put: Option<Path>, link: Option<(Path, Path)>): Forecast {
    u => AddForeseen(w, made, put, link, u)
  }

  lemma {:induction false} BlockedByFile(t: Tree, p: Path, u: Path)
    requires Closed(t) && p in t && t[p].File? && Above(p, u)
    ensures u !in t && MissReason(t, u) != NotExist
    decreases |u|
  {
    if u in t { AncestorsAreDirs(t, p, u); }
    if p != Parent(u) {
      assert p == u[..|p|] == Parent(u)[..|p|];
      BlockedByFile(t, p, Parent(u));
    }
  }

  lemma NothingMadeBelowPut(w: World, w': World, made: Path, put: Option<Path>, link: Option<(Path, Path)>, u: Path)
    requires AddStep(w, w', made, put, link)
    ensures PutAbove(put, u) ==> !(u <= made)
  {
    if put.Some? && Above(put.value, made) { AncestorsAreDirs(w'.pages, put.value, made); }
    if PutAbove(put, u) { PrefixThrough(put.value, u, made); }
  }

  // A place where a directory is made was missing for no other reason.
  lemma MadeWasMissing(w: World, w': World, made: Path, put: Option<Path>, link: Option<(Path, Path)>, u: Path)
    requires Closed(w.pages) && AddStep(w, w', made, put, link)
    requires u !in w.pages && u in w'.pages && w'.pages[u].Dir?
    ensures MissReason(w.pages, u) == NotExist
  {
    forall i | 0 <= i < |u| && u[..i] in w.pages ensures w.pages[u[..i]].Dir? {
      AncestorsAreDirs(w'.pages, u[..i], u);
    }
    MissReasonBelowDir(w.pages, [], u);
  }

  // Where nothing appears, a missing address is missing for the same reason as before.
  lemma {:induction false} MissAsBefore(w: World, w': World, made: Path, put: Option<Path>, link: Option<(Path, Path)>, u: Path)
    requires Closed(w.pages) && AddStep(w, w', made, put, link) && u !in w'.pages && !PutAbove(put, u)
    ensures u !in w.pages && MissReason(w'.pages, u) == MissReason(w.pages, u)
    decreases |u|
  {
    var up := Parent(u);
    assert put != Some(up);
    if up in w'.pages {
      if up !in w.pages { MadeWasMissing(w, w', made, put, link, up); }
    } else {
      assert !PutAbove(put, up) by { if PutAbove(put, up) { BelowParent(put.value, u); } }
      MissAsBefore(w, w', made, put, link, up);
    }
  }

  lemma AddForeseenAt(w: World, w': World, made: Path, put: Option<Path>, link: Option<(Path, Path)>, u: Path)
    requires Closed(w.pages) && AddStep(w, w', made, put, link)
    ensures AddForeseen(w, made, put, link, u) == Handle(w', u)
  {
    NothingMadeBelowPut(w, w', made, put, link, u);
    if Above(u, made) { AncestorsAreDirs(w'.pages, u, made); }
    if put != Some(u) {
      if PutAbove(put, u) {
        BlockedByFile(w'.pages, put.value, u);
      } else if u !in w'.pages {
        MissAsBefore(w, w', made, put, link, u);
      }
    }
  }

  // ---- one event ----

  function EventForecast(w: World, event: Event): Forecast {
    match event
    case Move(d, e, _, linked) => MoveForecast(w, d, e, linked)
    case Add(made, put, link) => AddForecast(w, made, put, link)
  }

  // The addresses an event concerns: at and below either place of a move, where a
  // directory is made, below a file that is put, and where a redirect is saved.
  function ConcernedBy(w: World, event: Event): Path -> bool {
    match event
    case Move(d, e, _, _) => u => Concerned(w, d, e, u)
    case Add(made, put, link) =>
      u => (u !in w.pages && u <= made) || PutAbove(put, u) || (link.Some? && link.value.0 == u && u !in w.pages)
  }

  lemma ForecastIsRight(w: World, w': World, event: Event)
    requires Closed(w.pages) && EventStep(w, w', event)
    ensures IsRight(EventForecast(w, event), w')
  {
    match event
    case Move(d, e, mid, linked) => MoveForecastIsRight(w, w', d, e, mid, linked);
    case Add(made, put, link) =>
      forall u ensures AddForeseen(w, made, put, link, u) == Handle(w', u) {
        AddForeseenAt(w, w', made, put, link, u);
      }
  }

  lemma OthersAnswerAsBefore(w: World, event: Event)
    ensures ConcernsOnly(w, EventForecast(w, event), ConcernedBy(w, event))
  {
    var f, concerned := EventForecast(w, event), ConcernedBy(w, event);
    forall u | !concerned(u) && Works(w, u) ensures f(u) == Handle(w, u) || WillWork(f, u) {
      if f(u).Serves? { assert WillReach(f, u, 0); }
    }
  }

  // An address the event concerns works now, and will lead nowhere.
  ghost predicate Harms(w: World, event: Event, u: Path) {
    ConcernedBy(w, event)(u) && Works(w, u) && !WillWork(EventForecast(w, event), u)
  }

  lemma NoHarmIsSparing(w: World, event: Event)
    ensures Spares(w, EventForecast(w, event), ConcernedBy(w, event)) <==> forall u :: !Harms(w, event, u)
  {
    var f, concerned := EventForecast(w, event), ConcernedBy(w, event);
    if !Spares(w, f, concerned) {
      var c :| concerned(c) && Works(w, c) && !WillWork(f, c);
      assert Harms(w, event, c);
    } else {
      forall u ensures !Harms(w, event, u) { assert concerned(u) && Works(w, u) ==> WillWork(f, u); }
    }
  }

  lemma WorksOnUnlessHarmed(w: World, w': World, event: Event)
    requires Closed(w.pages) && EventStep(w, w', event)
    ensures (forall u :: Works(w, u) ==> Works(w', u)) <==> (forall u :: !Harms(w, event, u))
  {
    var f, concerned := EventForecast(w, event), ConcernedBy(w, event);
    ForecastIsRight(w, w', event);
    OthersAnswerAsBefore(w, event);
    EveryAddressWorksOnIff(w, w', f, concerned);
    NoHarmIsSparing(w, event);
  }

  // Where to look for harm: an old address whose page is away, or one that a move takes
  // with it.
  lemma OnlyTheseCanBeHarmed(w: World, w': World, event: Event, u: Path)
    requires Closed(w.pages) && EventStep(w, w', event) && Harms(w, event, u)
    ensures Away(w, u) || (event.Move? && event.d <= u)
  {
    WorksByNext(w, u);
    match event
    case Move(d, e, _, _) => NothingBelowMissing(w.pages, e);
    case Add(_, put, _) => if PutAbove(put, u) { BlockedByFile(w'.pages, put.value, u); }
  }

  // ---- runs ----

  ghost predicate StepAt(worlds: seq<World>, events: seq<Event>, i: int)
    requires 0 <= i < |events| && |worlds| == |events| + 1
  {
    EventStep(worlds[i], worlds[i + 1], events[i])
  }

  // From any tree of pages and any redirects.
  ghost predicate IsRun(worlds: seq<World>, events: seq<Event>) {
    && |worlds| == |events| + 1 && Closed(worlds[0].pages)
    && forall i :: 0 <= i < |events| ==> StepAt(worlds, events, i)
  }

  lemma {:induction false} RunIsClosed(worlds: seq<World>, events: seq<Event>, i: nat)
    requires IsRun(worlds, events) && i < |worlds|
    ensures Closed(worlds[i].pages)
  {
    if i > 0 { assert StepAt(worlds, events, i - 1); }
  }

  ghost predicate NoneHarmed(worlds: seq<World>, events: seq<Event>, i: nat, j: nat)
    requires i <= j <= |events| && |worlds| == |events| + 1
  {
    forall k, u :: i <= k < j ==> !Harms(worlds[k], events[k], u)
  }

  lemma {:induction false} WorksUntil(worlds: seq<World>, events: seq<Event>, i: nat, j: nat, u: Path)
    requires IsRun(worlds, events) && i <= j <= |events| && NoneHarmed(worlds, events, i, j) && Works(worlds[i], u)
    ensures Works(worlds[j], u)
    decreases j
  {
    if i < j {
      WorksUntil(worlds, events, i, j - 1, u);
      RunIsClosed(worlds, events, j - 1);
      assert StepAt(worlds, events, j - 1);
      WorksOnUnlessHarmed(worlds[j - 1], worlds[j], events[j - 1]);
    }
  }

  // The promise for everything that can happen, failures and compensations included:
  // every address that ever led to a page goes on doing so if and only if no event of the
  // run harms an address it concerns.
  lemma EverWorkedWorksOnIff(worlds: seq<World>, events: seq<Event>)
    requires IsRun(worlds, events)
    ensures (forall i, j, u :: 0 <= i <= j < |worlds| && Works(worlds[i], u) ==> Works(worlds[j], u)) <==>
      NoneHarmed(worlds, events, 0, |events|)
  {
    if NoneHarmed(worlds, events, 0, |events|) {
      forall i, j, u | 0 <= i <= j < |worlds| && Works(worlds[i], u) ensures Works(worlds[j], u) {
        WorksUntil(worlds, events, i, j, u);
      }
    }
    if forall i, j, u :: 0 <= i <= j < |worlds| && Works(worlds[i], u) ==> Works(worlds[j], u) {
      forall k, u | 0 <= k < |events| ensures !Harms(worlds[k], events[k], u) {
        RunIsClosed(worlds, events, k);
        assert StepAt(worlds, events, k);
        WorksOnUnlessHarmed(worlds[k], worlds[k + 1], events[k]);
      }
    }
  }

  // ---- every outcome is an event ----

  lemma WriteHappens(w: World, w': World, p: Path, content: string, mode: nat)
    requires Closed(w.pages) && p != [] && OnlyWrote(w.pages, w'.pages, p, File(content, mode)) && Closed(w'.pages)
    requires w'.links == w.links && w'.index == w.index
    ensures Happens(w, w')
  {
    var made := DeepestIn(w'.pages, Parent(p));
    forall q | q in w'.pages && q !in w.pages && q != p ensures q <= made {
      PrefixOfParent(q, p);
      DeepestIsLast(w'.pages, Parent(p), q);
    }
    assert EventStep(w, w', Add(made, if IsFile(w', p) then Some(p) else None, None));
  }

  lemma LeftoverHappens(w: World, w': World, a: Path, b: Path)
    requires Closed(w.pages) && b != [] && OnlyDirsAdded(w.pages, w'.pages, Parent(b)) && Closed(w'.pages)
    requires (w'.links == w.links || w'.links == w.links[a := b]) && w'.index == w.index
    ensures Happens(w, w')
  {
    var made := DeepestIn(w'.pages, Parent(b));
    forall q | q in w'.pages && q !in w.pages ensures q <= made {
      DeepestIsLast(w'.pages, Parent(b), q);
    }
    assert EventStep(w, w', Add(made, None, if w'.links == w.links then None else Some((a, b))));
  }
}
