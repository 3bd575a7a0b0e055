// saveEditedFile under the keyed mutex: reading the page, numbering a revision,
// recording it and replacing the page, with any of these failing and with any
// number of saves running at once.

module Revisions {
  import opened KeyedMutexProtocol

  type Uri = string

  datatype Record = Record(revision: int, uri: Uri, before: string, after: string)

  // A revision directory: its records in the order they appeared, and how many
  // empty files an unfinished reservation has left there.
  datatype Folder = Folder(records: seq<Record>, empties: nat)

  // ---- numbering one directory ----

  function Max(a: int, b: int): int {
    if a < b then b else a
  }

  function MaxRevision(records: seq<Record>): (m: int)
    ensures 0 <= m
    ensures forall i :: 0 <= i < |records| ==> records[i].revision <= m
    ensures m == 0 || exists i :: 0 <= i < |records| && records[i].revision == m
  {
    if records == [] then 0
    else Max(MaxRevision(records[..|records| - 1]), records[|records| - 1].revision)
  }

  // nextRevision
  method NextRevision(records: seq<Record>) returns (next: int)
    ensures next == MaxRevision(records) + 1
    ensures forall i :: 0 <= i < |records| ==> records[i].revision < next
  {
    var maxRevision := 0;
    for i := 0 to |records|
      invariant maxRevision == MaxRevision(records[..i])
    {
      assert records[..i + 1][..i] == records[..i];
      if records[i].revision > maxRevision {
        maxRevision := records[i].revision;
      }
    }
    assert records[..|records|] == records;
    next := maxRevision + 1;
  }

  // Numbered exactly 1..n, without gap or repeat.
  ghost predicate Numbered(records: seq<Record>) {
    forall i :: 0 <= i < |records| ==> records[i].revision == i + 1
  }

  lemma {:induction false} NumberedMax(records: seq<Record>)
    requires Numbered(records)
    ensures MaxRevision(records) == |records|
  {
    if records != [] { NumberedMax(records[..|records| - 1]); }
  }

  // findRevision
  method FindRevision(records: seq<Record>, revision: int) returns (found: bool, record: Record)
    ensures found ==> record in records && record.revision == revision
    ensures !found ==> forall i :: 0 <= i < |records| ==> records[i].revision != revision
    ensures Numbered(records) && 1 <= revision <= |records| ==> found && record == records[revision - 1]
  {
    assert Numbered(records) && 1 <= revision <= |records| ==> records[revision - 1].revision == revision;
    for i := 0 to |records|
      invariant forall j :: 0 <= j < i ==> records[j].revision != revision
    {
      if records[i].revision == revision { return true, records[i]; }
    }
    return false, Record(0, "", "", "");
  }

  // ---- the protocol ----

  datatype Stage =
    | Start
    | HaveOld(before: string)
    | HaveRevision(before: string, revision: int)
    | Reserved(before: string, revision: int)      // an empty file holds the name
    | Recorded(before: string, revision: int)      // the record is on disk
    | Withdrawing(before: string, revision: int)   // it is, but its write reported an error
    | Done                                      // returning, with or without an error

  datatype Task = NoTask | Saving(uri: Uri, content: string, stage: Stage)

  // `pages` holds the live content of the pages that exist; `history` collects
  // what each page has ever held.
  datatype Site = Site(mutex: State, tasks: seq<Task>, folders: map<Key, Folder>,
                       pages: map<Uri, string>, history: map<Uri, set<string>>)

  function FolderAt(s: Site, key: Key): Folder {
    if key in s.folders then s.folders[key] else Folder([], 0)
  }

  // A missing page reads as empty.
  function PageAt(s: Site, uri: Uri): string {
    if uri in s.pages then s.pages[uri] else ""
  }

  function HistoryOf(s: Site, uri: Uri): set<string> {
    (if uri in s.history then s.history[uri] else {}) + {PageAt(s, uri)}
  }

  function Empty(n: nat, pages: map<Uri, string>): Site {
    Site(Init(n), seq(n, _ => NoTask), map[], pages, map[])
  }

  // Goroutine t is inside its critical section, at some stage.
  ghost predicate Inside(s: Site, t: nat) {
    && t < |s.tasks| == |s.mutex.threads|
    && s.mutex.threads[t].Holding? && s.tasks[t].Saving?
  }

  function MoveTo(s: Site, t: nat, stage: Stage): Site
    requires t < |s.tasks| && s.tasks[t].Saving?
  {
    s.(tasks := s.tasks[t := s.tasks[t].(stage := stage)])
  }

  function WithFolder(s: Site, key: Key, folder: Folder): Site {
    s.(folders := s.folders[key := folder])
  }

  function WithPage(s: Site, uri: Uri, content: string): Site {
    s.(pages := s.pages[uri := content], history := s.history[uri := HistoryOf(s, uri) + {content}])
  }

  // fold gives each page the directory its revisions live in; it is also the lock key.
  ghost predicate BeginStep(fold: Uri -> Key, s: Site, s': Site, t: nat, uri: Uri, content: string) {
    && t < |s.tasks| && s.tasks[t].NoTask?
    && RegisterStep(s.mutex, s'.mutex, t, fold(uri))
    && s' == s.(mutex := s'.mutex, tasks := s.tasks[t := Saving(uri, content, Start)])
  }

  ghost predicate EnterStep(s: Site, s': Site, t: nat) {
    LockStep(s.mutex, s'.mutex, t) && s' == s.(mutex := s'.mutex)
  }

  ghost predicate ReadOldStep(s: Site, s': Site, t: nat) {
    && Inside(s, t) && s.tasks[t].stage == Start
    && (s' == MoveTo(s, t, HaveOld(PageAt(s, s.tasks[t].uri))) || s' == MoveTo(s, t, Done))
  }

  // An empty file in the directory makes loading fail; so may anything else.
  ghost predicate NumberStep(fold: Uri -> Key, s: Site, s': Site, t: nat) {
    && Inside(s, t) && s.tasks[t].stage.HaveOld?
    && var folder := FolderAt(s, fold(s.tasks[t].uri));
       || (folder.empties == 0
           && s' == MoveTo(s, t, HaveRevision(s.tasks[t].stage.before, MaxRevision(folder.records) + 1)))
       || s' == MoveTo(s, t, Done)
  }

  // Reserving the file name; a failing close may leave the empty file behind.
  ghost predicate ReserveStep(fold: Uri -> Key, s: Site, s': Site, t: nat) {
    && Inside(s, t) && s.tasks[t].stage.HaveRevision?
    && var key := fold(s.tasks[t].uri);
       var folder := FolderAt(s, key);
       var more := WithFolder(s, key, folder.(empties := folder.empties + 1));
       || s' == MoveTo(more, t, Reserved(s.tasks[t].stage.before, s.tasks[t].stage.revision))
       || s' == MoveTo(more, t, Done)
       || s' == MoveTo(s, t, Done)
  }

  function NewRecord(task: Task): Record
    requires task.Saving? && task.stage.Reserved?
  {
    Record(task.stage.revision, task.uri, task.stage.before, task.content)
  }

  // Writing the record over the reservation: done, done but reported as failed,
  // or not done, with or without the reservation removed.
  ghost predicate RecordStep(fold: Uri -> Key, s: Site, s': Site, t: nat) {
    && Inside(s, t) && s.tasks[t].stage.Reserved? && FolderAt(s, fold(s.tasks[t].uri)).empties > 0
    && (Written(fold, s, s', t) || NotWritten(fold, s, s', t))
  }

  ghost predicate Written(fold: Uri -> Key, s: Site, s': Site, t: nat)
    requires t < |s.tasks| && s.tasks[t].Saving? && s.tasks[t].stage.Reserved?
    requires FolderAt(s, fold(s.tasks[t].uri)).empties > 0
  {
    var key, Reserved(before, n) := fold(s.tasks[t].uri), s.tasks[t].stage;
    var folder := FolderAt(s, key);
    var written := WithFolder(s, key, Folder(folder.records + [NewRecord(s.tasks[t])], folder.empties - 1));
    s' == MoveTo(written, t, Recorded(before, n)) || s' == MoveTo(written, t, Withdrawing(before, n))
  }

  ghost predicate NotWritten(fold: Uri -> Key, s: Site, s': Site, t: nat)
    requires t < |s.tasks| && s.tasks[t].Saving? && FolderAt(s, fold(s.tasks[t].uri)).empties > 0
  {
    var key := fold(s.tasks[t].uri);
    var folder := FolderAt(s, key);
    s' == MoveTo(WithFolder(s, key, folder.(empties := folder.empties - 1)), t, Done) || s' == MoveTo(s, t, Done)
  }

  // Removing a record whose write reported an error; the removal may fail too.
  ghost predicate WithdrawStep(fold: Uri -> Key, s: Site, s': Site, t: nat) {
    && Inside(s, t) && s.tasks[t].stage.Withdrawing?
    && var key := fold(s.tasks[t].uri);
       var folder := FolderAt(s, key);
       && folder.records != []
       && (|| s' == MoveTo(WithFolder(s, key, folder.(records := folder.records[..|folder.records| - 1])), t, Done)
           || s' == MoveTo(s, t, Done))
  }

  // Replacing the page: done (reported or not), or not done.
  ghost predicate PublishStep(s: Site, s': Site, t: nat) {
    && Inside(s, t) && s.tasks[t].stage.Recorded?
    && (|| s' == MoveTo(WithPage(s, s.tasks[t].uri, s.tasks[t].content), t, Done)
        || s' == MoveTo(s, t, Done))
  }

  ghost predicate LeaveStep(s: Site, s': Site, t: nat) {
    && Inside(s, t) && s.tasks[t].stage.Done?
    && UnlockStep(s.mutex, s'.mutex, t) && s' == s.(mutex := s'.mutex)
  }

  ghost predicate EndStep(s: Site, s': Site, t: nat) {
    && UnregisterStep(s.mutex, s'.mutex, t) && t < |s.tasks|
    && s' == s.(mutex := s'.mutex, tasks := s.tasks[t := NoTask])
  }

  // One step of the save goroutine t is running.
  ghost predicate SaveStep(fold: Uri -> Key, s: Site, s': Site, t: nat) {
    || ReadOldStep(s, s', t) || NumberStep(fold, s, s', t) || ReserveStep(fold, s, s', t)
    || RecordStep(fold, s, s', t) || WithdrawStep(fold, s, s', t) || PublishStep(s, s', t)
  }

  ghost predicate BeginsSave(fold: Uri -> Key, s: Site, s': Site, t: nat) {
    exists uri, content :: BeginStep(fold, s, s', t, uri, content)
  }

  ghost predicate StepOf(fold: Uri -> Key, s: Site, s': Site, t: nat) {
    || BeginsSave(fold, s, s', t) || EnterStep(s, s', t) || SaveStep(fold, s, s', t)
    || LeaveStep(s, s', t) || EndStep(s, s', t)
  }

  // ---- what the steps keep ----

  ghost predicate TasksMatch(fold: Uri -> Key, s: Site) {
    && |s.tasks| == |s.mutex.threads|
    && forall t :: 0 <= t < |s.tasks| ==>
         && (s.tasks[t].NoTask? <==> s.mutex.threads[t].Idle?)
         && (s.tasks[t].Saving? ==> s.mutex.threads[t].key == fold(s.tasks[t].uri))
         && (s.mutex.threads[t].Registered? ==> s.tasks[t].stage == Start)
  }

  // A directory holds only records of pages that fold to it, numbered 1..n.
  ghost predicate FolderSound(fold: Uri -> Key, s: Site, key: Key) {
    && Numbered(FolderAt(s, key).records)
    && forall i :: 0 <= i < |FolderAt(s, key).records| ==> fold(FolderAt(s, key).records[i].uri) == key
  }

  // What goroutine t knows about the directory and page it has locked.
  ghost predicate Informed(fold: Uri -> Key, s: Site, t: nat)
    requires t < |s.tasks| && s.tasks[t].Saving?
  {
    var Saving(uri, content, stage) := s.tasks[t];
    var records := FolderAt(s, fold(uri)).records;
    match stage
    case Start => true
    case HaveOld(before) => before == PageAt(s, uri)
    case HaveRevision(before, n) => before == PageAt(s, uri) && n == |records| + 1
    case Reserved(before, n) => before == PageAt(s, uri) && n == |records| + 1
    case Recorded(before, n) => before == PageAt(s, uri) && n == |records| > 0 && records[n - 1] == Record(n, uri, before, content)
    case Withdrawing(before, n) => before == PageAt(s, uri) && n == |records| > 0 && records[n - 1] == Record(n, uri, before, content)
    case Done => true
  }

  ghost predicate SiteInv(fold: Uri -> Key, s: Site) {
    && Inv(s.mutex) && TasksMatch(fold, s)
    && (forall key :: FolderSound(fold, s, key))
    && (forall t: nat :: Inside(s, t) ==> Informed(fold, s, t))
  }

  // Two goroutines inside their critical sections work on different directories.
  lemma InsideAlone(fold: Uri -> Key, s: Site, t: nat, u: nat)
    requires Inv(s.mutex) && TasksMatch(fold, s) && Inside(s, t) && Inside(s, u)
    requires fold(s.tasks[t].uri) == fold(s.tasks[u].uri)
    ensures t == u
  {
    var id := s.mutex.locks[fold(s.tasks[t].uri)];
    assert HeldBy(s.mutex, id, t) && HeldBy(s.mutex, id, u);
  }

  // A save touches its own task, its own directory and its own page.
  ghost predicate OnlyOwn(fold: Uri -> Key, s: Site, s': Site, t: nat)
    requires t < |s.tasks| && s.tasks[t].Saving?
  {
    && s'.mutex == s.mutex && |s'.tasks| == |s.tasks|
    && s'.tasks[t].Saving? && s'.tasks[t].uri == s.tasks[t].uri && s'.tasks[t].content == s.tasks[t].content
    && (forall u :: 0 <= u < |s.tasks| && u != t ==> s'.tasks[u] == s.tasks[u])
    && (forall key :: key != fold(s.tasks[t].uri) ==> FolderAt(s', key) == FolderAt(s, key))
    && (forall uri :: uri != s.tasks[t].uri ==> PageAt(s', uri) == PageAt(s, uri) && HistoryOf(s', uri) == HistoryOf(s, uri))
  }

  ghost predicate OwnSound(fold: Uri -> Key, s: Site, t: nat) {
    && t < |s.tasks| && s.tasks[t].Saving?
    && Informed(fold, s, t) && FolderSound(fold, s, fold(s.tasks[t].uri))
  }

  // What a move does, with or without a change to the own directory.
  lemma MoveOwn(fold: Uri -> Key, s: Site, t: nat, stage: Stage)
    requires t < |s.tasks| && s.tasks[t].Saving?
    ensures var s' := MoveTo(s, t, stage);
      OnlyOwn(fold, s, s', t) && s'.tasks[t].stage == stage && PageAt(s', s.tasks[t].uri) == PageAt(s, s.tasks[t].uri)
      && FolderAt(s', fold(s.tasks[t].uri)) == FolderAt(s, fold(s.tasks[t].uri))
      && HistoryOf(s', s.tasks[t].uri) == HistoryOf(s, s.tasks[t].uri)
  {
  }

  lemma FolderOwn(fold: Uri -> Key, s: Site, t: nat, folder: Folder, stage: Stage)
    requires t < |s.tasks| && s.tasks[t].Saving?
    ensures var s' := MoveTo(WithFolder(s, fold(s.tasks[t].uri), folder), t, stage);
      OnlyOwn(fold, s, s', t) && s'.tasks[t].stage == stage && PageAt(s', s.tasks[t].uri) == PageAt(s, s.tasks[t].uri)
      && FolderAt(s', fold(s.tasks[t].uri)) == folder
      && HistoryOf(s', s.tasks[t].uri) == HistoryOf(s, s.tasks[t].uri)
  {
  }

  lemma ReadOldOwn(fold: Uri -> Key, s: Site, s': Site, t: nat)
    requires OwnSound(fold, s, t) && ReadOldStep(s, s', t)
    ensures OnlyOwn(fold, s, s', t) && OwnSound(fold, s', t)
  {
    MoveOwn(fold, s, t, s'.tasks[t].stage);
  }

  lemma NumberOwn(fold: Uri -> Key, s: Site, s': Site, t: nat)
    requires OwnSound(fold, s, t) && NumberStep(fold, s, s', t)
    ensures OnlyOwn(fold, s, s', t) && OwnSound(fold, s', t)
  {
    NumberedMax(FolderAt(s, fold(s.tasks[t].uri)).records);
    MoveOwn(fold, s, t, s'.tasks[t].stage);
  }

  lemma ReserveOwn(fold: Uri -> Key, s: Site, s': Site, t: nat)
    requires OwnSound(fold, s, t) && ReserveStep(fold, s, s', t)
    ensures OnlyOwn(fold, s, s', t) && OwnSound(fold, s', t)
  {
    var folder := FolderAt(s, fold(s.tasks[t].uri));
    MoveOwn(fold, s, t, s'.tasks[t].stage);
    FolderOwn(fold, s, t, folder.(empties := folder.empties + 1), s'.tasks[t].stage);
  }

  lemma WrittenOwn(fold: Uri -> Key, s: Site, s': Site, t: nat)
    requires OwnSound(fold, s, t) && s.tasks[t].stage.Reserved? && FolderAt(s, fold(s.tasks[t].uri)).empties > 0
    requires Written(fold, s, s', t)
    ensures OnlyOwn(fold, s, s', t) && OwnSound(fold, s', t)
  {
    var folder := FolderAt(s, fold(s.tasks[t].uri));
    FolderOwn(fold, s, t, Folder(folder.records + [NewRecord(s.tasks[t])], folder.empties - 1), s'.tasks[t].stage);
  }

  lemma NotWrittenOwn(fold: Uri -> Key, s: Site, s': Site, t: nat)
    requires OwnSound(fold, s, t) && FolderAt(s, fold(s.tasks[t].uri)).empties > 0 && NotWritten(fold, s, s', t)
    ensures OnlyOwn(fold, s, s', t) && OwnSound(fold, s', t)
  {
    var folder := FolderAt(s, fold(s.tasks[t].uri));
    MoveOwn(fold, s, t, Done);
    FolderOwn(fold, s, t, folder.(empties := folder.empties - 1), Done);
  }

  lemma RecordOwn(fold: Uri -> Key, s: Site, s': Site, t: nat)
    requires OwnSound(fold, s, t) && RecordStep(fold, s, s', t)
    ensures OnlyOwn(fold, s, s', t) && OwnSound(fold, s', t)
  {
    if Written(fold, s, s', t) { WrittenOwn(fold, s, s', t); } else { NotWrittenOwn(fold, s, s', t); }
  }

  lemma WithdrawOwn(fold: Uri -> Key, s: Site, s': Site, t: nat)
    requires OwnSound(fold, s, t) && WithdrawStep(fold, s, s', t)
    ensures OnlyOwn(fold, s, s', t) && OwnSound(fold, s', t)
  {
    var folder := FolderAt(s, fold(s.tasks[t].uri));
    MoveOwn(fold, s, t, Done);
    FolderOwn(fold, s, t, folder.(records := folder.records[..|folder.records| - 1]), Done);
  }

  lemma PublishOwn(fold: Uri -> Key, s: Site, s': Site, t: nat)
    requires OwnSound(fold, s, t) && PublishStep(s, s', t)
    ensures OnlyOwn(fold, s, s', t) && OwnSound(fold, s', t)
  {
  }

  lemma SaveStepOwn(fold: Uri -> Key, s: Site, s': Site, t: nat)
    requires OwnSound(fold, s, t) && SaveStep(fold, s, s', t)
    ensures OnlyOwn(fold, s, s', t) && OwnSound(fold, s', t)
  {
    if ReadOldStep(s, s', t) { ReadOldOwn(fold, s, s', t); }
    else if NumberStep(fold, s, s', t) { NumberOwn(fold, s, s', t); }
    else if ReserveStep(fold, s, s', t) { ReserveOwn(fold, s, s', t); }
    else if RecordStep(fold, s, s', t) { RecordOwn(fold, s, s', t); }
    else if WithdrawStep(fold, s, s', t) { WithdrawOwn(fold, s, s', t); }
    else { PublishOwn(fold, s, s', t); }
  }

  // Someone else's step on another directory tells goroutine u nothing new.
  lemma OthersStayInformed(fold: Uri -> Key, s: Site, s': Site, t: nat, u: nat)
    requires t < |s.tasks| && s.tasks[t].Saving? && OnlyOwn(fold, s, s', t)
    requires u < |s.tasks| && u != t && s.tasks[u].Saving? && fold(s.tasks[u].uri) != fold(s.tasks[t].uri)
    ensures Informed(fold, s, u) ==> Informed(fold, s', u)
  {
    assert FolderAt(s', fold(s.tasks[u].uri)) == FolderAt(s, fold(s.tasks[u].uri));
  }

  lemma FoldersStaySound(fold: Uri -> Key, s: Site, s': Site, t: nat, key: Key)
    requires FolderSound(fold, s, key) && OwnSound(fold, s', t) && t < |s.tasks| && s.tasks[t].Saving?
    requires OnlyOwn(fold, s, s', t)
    ensures FolderSound(fold, s', key)
  {
  }

  lemma SaveStepKeepsInv(fold: Uri -> Key, s: Site, s': Site, t: nat)
    requires SiteInv(fold, s) && SaveStep(fold, s, s', t)
    ensures SiteInv(fold, s')
  {
    assert FolderSound(fold, s, fold(s.tasks[t].uri));
    SaveStepOwn(fold, s, s', t);
    forall key ensures FolderSound(fold, s', key) {
      FoldersStaySound(fold, s, s', t, key);
    }
    forall u: nat | Inside(s', u) ensures Informed(fold, s', u) {
      if u != t {
        assert Inside(s, u);
        if fold(s.tasks[u].uri) == fold(s.tasks[t].uri) { InsideAlone(fold, s, t, u); }
        OthersStayInformed(fold, s, s', t, u);
      }
    }
  }

  // The lock steps leave directories and pages alone.
  lemma MutexStepKeepsInv(fold: Uri -> Key, s: Site, s': Site, t: nat)
    requires SiteInv(fold, s) && t < |s.tasks| && Next(s.mutex, s'.mutex, t)
    requires s' == s.(mutex := s'.mutex, tasks := s'.tasks)
    requires TasksMatch(fold, s') && |s'.tasks| == |s.tasks|
    requires forall u :: 0 <= u < |s.tasks| && u != t ==>
      s'.tasks[u] == s.tasks[u] && s'.mutex.threads[u] == s.mutex.threads[u]
    requires Inside(s', t) ==> s'.tasks[t].stage == Start
    ensures SiteInv(fold, s')
  {
    NextKeepsInv(s.mutex, s'.mutex, t);
    forall key ensures FolderSound(fold, s', key) {
      assert FolderSound(fold, s, key);
    }
    forall u: nat | Inside(s', u) ensures Informed(fold, s', u) {
      if u != t { assert Inside(s, u); }
    }
  }

  lemma LockStepKeepsInv(fold: Uri -> Key, s: Site, s': Site, t: nat)
    requires SiteInv(fold, s)
    requires BeginsSave(fold, s, s', t) || EnterStep(s, s', t) || LeaveStep(s, s', t) || EndStep(s, s', t)
    ensures SiteInv(fold, s')
  {
    if BeginsSave(fold, s, s', t) {
      var uri, content :| BeginStep(fold, s, s', t, uri, content);
      assert RegisterStep(s.mutex, s'.mutex, t, fold(uri));
    }
    assert Next(s.mutex, s'.mutex, t);
    MutexStepKeepsInv(fold, s, s', t);
  }

  lemma StepKeepsInv(fold: Uri -> Key, s: Site, s': Site, t: nat)
    requires SiteInv(fold, s) && StepOf(fold, s, s', t)
    ensures SiteInv(fold, s')
  {
    if SaveStep(fold, s, s', t) {
      SaveStepKeepsInv(fold, s, s', t);
    } else {
      LockStepKeepsInv(fold, s, s', t);
    }
  }

  // ---- every interleaving ----

  // Goroutine turns[i] takes site i to site i + 1.
  ghost predicate StepAt(fold: Uri -> Key, sites: seq<Site>, turns: seq<nat>, i: int)
    requires 0 <= i < |turns| && |sites| == |turns| + 1
  {
    StepOf(fold, sites[i], sites[i + 1], turns[i])
  }

  // A run may begin at any site that satisfies the invariant, such as an empty one.
  ghost predicate IsRun(fold: Uri -> Key, sites: seq<Site>, turns: seq<nat>) {
    && |sites| == |turns| + 1 && SiteInv(fold, sites[0])
    && forall i :: 0 <= i < |turns| ==> StepAt(fold, sites, turns, i)
  }

  lemma EmptyIsSound(fold: Uri -> Key, n: nat, pages: map<Uri, string>)
    ensures SiteInv(fold, Empty(n, pages))
  {
    InitInv(n);
  }

  lemma {:induction false} RunKeepsInv(fold: Uri -> Key, sites: seq<Site>, turns: seq<nat>, i: nat)
    requires IsRun(fold, sites, turns) && i < |sites|
    ensures SiteInv(fold, sites[i])
  {
    if i > 0 {
      RunKeepsInv(fold, sites, turns, i - 1);
      assert StepAt(fold, sites, turns, i - 1);
      StepKeepsInv(fold, sites[i - 1], sites[i], turns[i - 1]);
    }
  }

  // Whatever saves run at once and wherever they fail, each directory's records
  // are numbered exactly 1..n.
  lemma RevisionsAreNumbered(fold: Uri -> Key, sites: seq<Site>, turns: seq<nat>, i: nat, key: Key)
    requires IsRun(fold, sites, turns) && i < |sites|
    ensures Numbered(FolderAt(sites[i], key).records)
  {
    RunKeepsInv(fold, sites, turns, i);
    assert FolderSound(fold, sites[i], key);
  }

  // ---- the story one page's revisions tell ----

  // No save of another page uses the page's revision directory.
  ghost predicate Alone(fold: Uri -> Key, s: Site, uri: Uri) {
    forall t :: 0 <= t < |s.tasks| && s.tasks[t].Saving? && fold(s.tasks[t].uri) == fold(uri) ==> s.tasks[t].uri == uri
  }

  ghost predicate AloneInRun(fold: Uri -> Key, sites: seq<Site>, uri: Uri) {
    forall i :: 0 <= i < |sites| ==> Alone(fold, sites[i], uri)
  }

  ghost predicate OneOf(content: string, r: Record) {
    content == r.before || content == r.after
  }

  // Each record starts from what the record before it started from or left.
  ghost predicate Linked(records: seq<Record>) {
    forall i :: 0 < i < |records| ==> OneOf(records[i].before, records[i - 1])
  }

  ghost predicate Keeps(records: seq<Record>, content: string) {
    exists i :: 0 <= i < |records| && OneOf(content, records[i])
  }

  // Everything in hist survives in a record, or is the live content of a page
  // that has no record yet.
  ghost predicate Covered(records: seq<Record>, live: string, hist: set<string>) {
    forall content :: content in hist ==> Keeps(records, content) || (records == [] && content == live)
  }

  ghost predicate Story(records: seq<Record>, live: string, hist: set<string>) {
    && Linked(records)
    && (records != [] ==> OneOf(live, records[|records| - 1]))
    && Covered(records, live, hist)
  }

  // The records before the last one cover everything too.
  ghost predicate PriorCovers(records: seq<Record>, live: string, hist: set<string>) {
    records != [] && Covered(records[..|records| - 1], live, hist)
  }

  ghost predicate PageStory(fold: Uri -> Key, s: Site, uri: Uri) {
    Story(FolderAt(s, fold(uri)).records, PageAt(s, uri), HistoryOf(s, uri))
  }

  predicate InFlight(task: Task) {
    task.Saving? && (task.stage.Recorded? || task.stage.Withdrawing?)
  }

  // A record not yet acted on has not become part of the story.
  ghost predicate StillPrior(fold: Uri -> Key, s: Site, t: nat) {
    t < |s.tasks| && InFlight(s.tasks[t]) ==>
      var uri := s.tasks[t].uri;
      PriorCovers(FolderAt(s, fold(uri)).records, PageAt(s, uri), HistoryOf(s, uri))
  }

  ghost predicate StoryInv(fold: Uri -> Key, s: Site, uri: Uri) {
    && PageStory(fold, s, uri)
    && forall t: nat :: Inside(s, t) && s.tasks[t].uri == uri ==> StillPrior(fold, s, t)
  }

  lemma RecordStory(records: seq<Record>, r: Record, live: string, hist: set<string>)
    requires Story(records, live, hist) && r.before == live
    ensures Story(records + [r], live, hist) && PriorCovers(records + [r], live, hist)
  {
    var more := records + [r];
    assert more[..|records|] == records;
    forall content | content in hist ensures Keeps(more, content) {
      if Keeps(records, content) {
        var i :| 0 <= i < |records| && OneOf(content, records[i]);
        assert OneOf(content, more[i]);
      } else {
        assert OneOf(content, more[|records|]);
      }
    }
  }

  // A step that leaves a page's records, content and history as they were.
  ghost predicate SameStory(fold: Uri -> Key, s: Site, s': Site, uri: Uri) {
    && FolderAt(s', fold(uri)).records == FolderAt(s, fold(uri)).records
    && PageAt(s', uri) == PageAt(s, uri) && HistoryOf(s', uri) == HistoryOf(s, uri)
  }

  lemma QuietEffect(fold: Uri -> Key, s: Site, s': Site, t: nat)
    requires ReadOldStep(s, s', t) || NumberStep(fold, s, s', t) || ReserveStep(fold, s, s', t)
    ensures SameStory(fold, s, s', s.tasks[t].uri) && t < |s'.tasks| && !InFlight(s'.tasks[t])
  {
  }

  lemma RecordEffect(fold: Uri -> Key, s: Site, s': Site, t: nat)
    requires RecordStep(fold, s, s', t)
    ensures t < |s'.tasks| && (InFlight(s'.tasks[t]) ==> s'.tasks[t].uri == s.tasks[t].uri)
    ensures var uri := s.tasks[t].uri;
      && PageAt(s', uri) == PageAt(s, uri) && HistoryOf(s', uri) == HistoryOf(s, uri)
      && if InFlight(s'.tasks[t])
         then FolderAt(s', fold(uri)).records == FolderAt(s, fold(uri)).records + [NewRecord(s.tasks[t])]
         else FolderAt(s', fold(uri)).records == FolderAt(s, fold(uri)).records
  {
    var folder := FolderAt(s, fold(s.tasks[t].uri));
    if Written(fold, s, s', t) {
      FolderOwn(fold, s, t, Folder(folder.records + [NewRecord(s.tasks[t])], folder.empties - 1), s'.tasks[t].stage);
    } else {
      MoveOwn(fold, s, t, Done);
      FolderOwn(fold, s, t, folder.(empties := folder.empties - 1), Done);
    }
  }

  lemma RecordKeepsStory(fold: Uri -> Key, s: Site, s': Site, t: nat)
    requires OwnSound(fold, s, t) && RecordStep(fold, s, s', t) && PageStory(fold, s, s.tasks[t].uri)
    ensures PageStory(fold, s', s.tasks[t].uri) && StillPrior(fold, s', t)
  {
    var uri := s.tasks[t].uri;
    RecordEffect(fold, s, s', t);
    RecordStory(FolderAt(s, fold(uri)).records, NewRecord(s.tasks[t]), PageAt(s, uri), HistoryOf(s, uri));
  }

  lemma WithdrawKeepsStory(fold: Uri -> Key, s: Site, s': Site, t: nat)
    requires OwnSound(fold, s, t) && WithdrawStep(fold, s, s', t) && StoryInv(fold, s, s.tasks[t].uri)
    ensures PageStory(fold, s', s.tasks[t].uri) && StillPrior(fold, s', t)
  {
    var records := FolderAt(s, fold(s.tasks[t].uri)).records;
    assert StillPrior(fold, s, t);
    assert |records| > 1 ==> OneOf(records[|records| - 1].before, records[|records| - 2]);
  }

  lemma PublishKeepsStory(fold: Uri -> Key, s: Site, s': Site, t: nat)
    requires OwnSound(fold, s, t) && PublishStep(s, s', t) && StoryInv(fold, s, s.tasks[t].uri)
    ensures PageStory(fold, s', s.tasks[t].uri) && StillPrior(fold, s', t)
  {
    var uri := s.tasks[t].uri;
    var records := FolderAt(s, fold(uri)).records;
    assert OneOf(s.tasks[t].content, records[|records| - 1]);
    assert Keeps(records, s.tasks[t].content);
    assert HistoryOf(s', uri) <= HistoryOf(s, uri) + {s.tasks[t].content};
  }

  // The goroutine's own steps.
  lemma OwnStepKeepsStory(fold: Uri -> Key, s: Site, s': Site, t: nat)
    requires OwnSound(fold, s, t) && SaveStep(fold, s, s', t) && StoryInv(fold, s, s.tasks[t].uri)
    ensures PageStory(fold, s', s.tasks[t].uri) && StillPrior(fold, s', t)
  {
    if RecordStep(fold, s, s', t) { RecordKeepsStory(fold, s, s', t); }
    else if WithdrawStep(fold, s, s', t) { WithdrawKeepsStory(fold, s, s', t); }
    else if PublishStep(s, s', t) { PublishKeepsStory(fold, s, s', t); }
    else { QuietEffect(fold, s, s', t); }
  }

  lemma OwnerKeepsStory(fold: Uri -> Key, s: Site, s': Site, t: nat, uri: Uri)
    requires SiteInv(fold, s) && StoryInv(fold, s, uri) && SaveStep(fold, s, s', t) && s.tasks[t].uri == uri
    ensures StoryInv(fold, s', uri)
  {
    assert FolderSound(fold, s, fold(uri));
    SaveStepOwn(fold, s, s', t);
    OwnStepKeepsStory(fold, s, s', t);
    forall u: nat | Inside(s', u) && s'.tasks[u].uri == uri ensures u == t {
      if u != t { InsideAlone(fold, s, t, u); }
    }
  }

  lemma StepKeepsStory(fold: Uri -> Key, s: Site, s': Site, t: nat, uri: Uri)
    requires SiteInv(fold, s) && StoryInv(fold, s, uri) && Alone(fold, s, uri) && StepOf(fold, s, s', t)
    ensures StoryInv(fold, s', uri)
  {
    if SaveStep(fold, s, s', t) {
      if s.tasks[t].uri == uri {
        OwnerKeepsStory(fold, s, s', t, uri);
      } else {
        assert FolderSound(fold, s, fold(s.tasks[t].uri));
        SaveStepOwn(fold, s, s', t);
        OtherStepKeepsStory(fold, s, s', t, uri);
      }
    } else {
      LockStepKeepsStory(fold, s, s', t, uri);
    }
  }

  lemma OtherStepKeepsStory(fold: Uri -> Key, s: Site, s': Site, t: nat, uri: Uri)
    requires t < |s.tasks| && s.tasks[t].Saving? && OnlyOwn(fold, s, s', t)
    requires StoryInv(fold, s, uri) && fold(s.tasks[t].uri) != fold(uri)
    ensures StoryInv(fold, s', uri)
  {
    assert FolderAt(s', fold(uri)) == FolderAt(s, fold(uri));
    forall u: nat | Inside(s', u) && s'.tasks[u].uri == uri ensures Inside(s, u) && s.tasks[u] == s'.tasks[u] {
      assert u != t;
    }
  }

  lemma LockStepKeepsStory(fold: Uri -> Key, s: Site, s': Site, t: nat, uri: Uri)
    requires SiteInv(fold, s) && StoryInv(fold, s, uri)
    requires BeginsSave(fold, s, s', t) || EnterStep(s, s', t) || LeaveStep(s, s', t) || EndStep(s, s', t)
    ensures StoryInv(fold, s', uri)
  {
    assert s'.folders == s.folders && s'.pages == s.pages && s'.history == s.history;
    forall u: nat | Inside(s', u) && InFlight(s'.tasks[u]) ensures Inside(s, u) && s.tasks[u] == s'.tasks[u] {
    }
  }

  lemma EmptyTellsTheStory(fold: Uri -> Key, n: nat, pages: map<Uri, string>, uri: Uri)
    ensures StoryInv(fold, Empty(n, pages), uri)
  {
  }

  lemma NextTellsTheStory(fold: Uri -> Key, sites: seq<Site>, turns: seq<nat>, i: nat, uri: Uri)
    requires IsRun(fold, sites, turns) && i < |turns| && Alone(fold, sites[i], uri) && StoryInv(fold, sites[i], uri)
    ensures StoryInv(fold, sites[i + 1], uri)
  {
    RunKeepsInv(fold, sites, turns, i);
    assert StepAt(fold, sites, turns, i);
    StepKeepsStory(fold, sites[i], sites[i + 1], turns[i], uri);
  }

  // Over any run of saves and revision restores in which no other page uses its
  // directory, a page's live content is what the newest record started from or left,
  // the records link up, and everything the page ever held survives in some record.
  lemma {:induction false} RevisionsTellTheStory(fold: Uri -> Key, sites: seq<Site>, turns: seq<nat>, i: nat, uri: Uri)
    requires IsRun(fold, sites, turns) && i < |sites| && AloneInRun(fold, sites, uri) && StoryInv(fold, sites[0], uri)
    ensures StoryInv(fold, sites[i], uri)
  {
    if i > 0 {
      RevisionsTellTheStory(fold, sites, turns, i - 1, uri);
      NextTellsTheStory(fold, sites, turns, i - 1, uri);
    }
  }
}
