// saveEditedFile as one request sees it while it holds the lock of its revision
// directory: read the page, number a revision, reserve a file name, record, publish.

module PageEditor {
  import opened KeyedMutexProtocol
  import opened Revisions

  // The directory belongs to this page alone; its records are numbered 1..n and
  // tell the story of the page.
  ghost predicate Sound(uri: Uri, records: seq<Record>, page: string, history: set<string>) {
    && Numbered(records) && Story(records, page, history) && page in history
    && forall i :: 0 <= i < |records| ==> records[i].uri == uri
  }

  lemma SoundWithRecord(uri: Uri, records: seq<Record>, page: string, history: set<string>, content: string)
    requires Sound(uri, records, page, history)
    ensures Sound(uri, records + [Record(|records| + 1, uri, page, content)], page, history)
  {
    RecordStory(records, Record(|records| + 1, uri, page, content), page, history);
  }

  // A directory with one more empty file, and with one more record.
  function Reserving(folder: Folder): Folder {
    folder.(empties := folder.empties + 1)
  }

  function Recording(folder: Folder, record: Record): Folder {
    folder.(records := folder.records + [record])
  }

  // What a save may do: nothing; leave an empty file; record the edit; record it and
  // publish.  Where an empty file is left over, it does nothing.
  ghost predicate EditOutcome(uri: Uri, content: string, folder: Folder, page: string, folder': Folder, page': string) {
    || (folder' == folder && page' == page)
    || (folder.empties == 0 && folder' == Reserving(folder) && page' == page)
    || (folder.empties == 0 && page' in {page, content}
        && folder' == Recording(folder, Record(|folder.records| + 1, uri, page, content)))
  }

  class Editor {
    const uri: Uri
    var folder: Folder
    var page: string        // the live content; a missing page reads as empty
    ghost var history: set<string>  // everything the page ever held
    ghost var faults: nat

    constructor (uri: Uri, content: string)
      ensures Valid() && this.uri == uri && page == content && folder == Folder([], 0) && history == {content} && faults == 0
    {
      this.uri := uri;
      folder, page, history, faults := Folder([], 0), content, {content}, 0;
    }

    ghost predicate Valid()
      reads this
    {
      Sound(uri, folder.records, page, history)
    }

    // Ask the environment whether the next call breaks.
    method Fault() returns (bad: bool)
      modifies this`faults
      ensures faults == old(faults) + if bad then 1 else 0
    {
      bad := *;
      if bad { faults := faults + 1; }
    }

    // loadRevisions: a file left empty by an unfinished reservation does not parse.
    method LoadRevisions() returns (ok: bool, records: seq<Record>)
      modifies this`faults
      ensures ok ==> records == folder.records && folder.empties == 0
      ensures old(faults) <= faults && (faults == old(faults) && folder.empties == 0 <==> ok)
    {
      var bad := Fault();
      ok, records := !bad && folder.empties == 0, folder.records;
    }

    // Remove what was reserved; an error is ignored.
    method Discard()
      requires folder.empties > 0
      modifies this`folder, this`faults
      ensures old(faults) <= faults
      ensures folder in {old(folder), old(folder).(empties := old(folder).empties - 1)}
    {
      var bad := Fault();
      if !bad { folder := folder.(empties := folder.empties - 1); }
    }

    // The loop of writeRevision that reserves a fresh file name.
    method Reserve() returns (ok: bool)
      modifies this`folder, this`faults
      ensures old(faults) <= faults && (faults == old(faults) ==> ok)
      ensures folder.records == old(folder).records
      ensures ok ==> folder.empties == old(folder).empties + 1
      ensures !ok ==> old(folder).empties <= folder.empties <= old(folder).empties + 1
    {
      for attempt := 0 to 16
        invariant folder == old(folder) && old(faults) <= faults && (attempt > 0 ==> old(faults) < faults)
      {
        var failed := Fault();  // no randomness, or no access
        if failed { return false; }
        var taken := Fault();  // the random name exists
        if !taken {
          folder := folder.(empties := folder.empties + 1);
          var unclosed := Fault();
          if unclosed { Discard(); }
          return !unclosed;
        }
      }
      ok := false;
    }

    // writeRevision
    method WriteRevision(record: Record) returns (ok: bool)
      modifies this`folder, this`faults
      ensures folder in {old(folder), Reserving(old(folder)), Recording(old(folder), record)}
      ensures old(faults) <= faults && (faults == old(faults) ==> ok)
      ensures ok ==> folder == Recording(old(folder), record)
    {
      var bad := Fault();  // MkdirAll
      if bad { return false; }
      ok := Reserve();
      if !ok { return; }
      bad := Fault();  // atomicWriteFile, before its rename
      if bad {
        Discard();
        return false;
      }
      var previous := folder.records;
      folder := Folder(previous + [record], folder.empties - 1);
      bad := Fault();  // and after it
      ok := !bad;
      if bad {
        bad := Fault();
        if !bad { folder := folder.(records := previous); }
      }
    }

    function NextRecord(content: string): Record
      reads this
    {
      Record(|folder.records| + 1, uri, page, content)
    }

    // The first half of saveEditedFile: read the page, number and write the revision.
    method RecordEdit(content: string) returns (ok: bool)
      requires Valid()
      modifies this`folder, this`faults
      ensures Valid() && EditOutcome(uri, content, old(folder), page, folder, page)
      ensures ok ==> folder == Recording(old(folder), old(NextRecord(content)))
      ensures old(faults) <= faults
      ensures faults == old(faults) ==> (ok <==> old(folder).empties == 0)
    {
      var bad := Fault();
      if bad { return false; }
      var loaded, records := LoadRevisions();
      if !loaded { return false; }
      var next := NextRevision(records);
      NumberedMax(records);
      var record := Record(next, uri, page, content);
      SoundWithRecord(uri, records, page, history, content);
      ok := WriteRevision(record);
    }

    // saveEditedFile
    method SaveEditedFile(content: string) returns (ok: bool)
      requires Valid()
      modifies this
      ensures Valid() && history == old(history) + {page}
      ensures EditOutcome(uri, content, old(folder), old(page), folder, page)
      ensures ok ==> page == content && folder == Recording(old(folder), old(NextRecord(content)))
      ensures old(faults) <= faults
      ensures faults == old(faults) ==> (ok <==> old(folder).empties == 0)
    {
      ok := RecordEdit(content);
      if !ok { return; }
      var bad := Fault();
      if bad { return false; }
      PublishStory(old(folder).records, old(NextRecord(content)), page, history);
      page := content;
      history := history + {content};
      bad := Fault();
      ok := !bad;
    }

    // Restoring a revision saves its after content again.
    method RestoreRevision(revision: int) returns (ok: bool)
      requires Valid()
      modifies this
      ensures Valid() && history == old(history) + {page}
      ensures ok ==> 1 <= revision <= |old(folder).records| && page == old(folder).records[revision - 1].after
      ensures revision < 1 || |old(folder).records| < revision ==> !ok && folder == old(folder) && page == old(page)
      ensures old(faults) <= faults
      ensures faults == old(faults) && old(folder).empties == 0 ==> (ok <==> 1 <= revision <= |old(folder).records|)
    {
      var loaded, records := LoadRevisions();
      if !loaded { return false; }
      var found, record := FindRevision(records, revision);
      if !found { return false; }
      assert exists i :: 0 <= i < |records| && records[i] == record;
      ok := SaveEditedFile(record.after);
    }
  }

  // Publishing what the newest record announced keeps the story.
  lemma PublishStory(records: seq<Record>, record: Record, live: string, hist: set<string>)
    requires Story(records + [record], live, hist)
    ensures Story(records + [record], record.after, hist + {record.after})
  {
    var more := records + [record];
    assert OneOf(record.after, more[|records|]);
    assert Keeps(more, record.after);
  }

  // ---- every outcome is one the protocol has ----

  // Goroutine t takes its own steps, one after the other.
  ghost predicate IsSaveRun(fold: Uri -> Key, run: seq<Site>, t: nat) {
    run != [] && forall i :: 0 < i < |run| ==> SavesAt(fold, run, t, i)
  }

  ghost predicate SavesAt(fold: Uri -> Key, run: seq<Site>, t: nat, i: int)
    requires 0 < i < |run|
  {
    SaveStep(fold, run[i - 1], run[i], t)
  }

  // What a run of goroutine t has come to.
  ghost predicate ComesTo(fold: Uri -> Key, run: seq<Site>, t: nat, stage: Stage, folder: Folder, page: string)
    requires run != [] && t < |run[0].tasks| && run[0].tasks[t].Saving?
  {
    var s, last := run[0], run[|run| - 1];
    var uri := s.tasks[t].uri;
    && IsSaveRun(fold, run, t) && Inside(last, t)
    && last.tasks[t] == s.tasks[t].(stage := stage)
    && FolderAt(last, fold(uri)) == folder && PageAt(last, uri) == page
    && HistoryOf(last, uri) == HistoryOf(s, uri) + {page}
  }

  lemma Longer(fold: Uri -> Key, run: seq<Site>, t: nat, next: Site)
    requires IsSaveRun(fold, run, t) && SaveStep(fold, run[|run| - 1], next, t)
    ensures IsSaveRun(fold, run + [next], t)
  {
    var more := run + [next];
    forall i | 0 < i < |more| ensures SavesAt(fold, more, t, i) {
      if i < |run| { assert SavesAt(fold, run, t, i); }
    }
  }

  // One step that only moves goroutine t on.
  lemma MoveOn(fold: Uri -> Key, run: seq<Site>, t: nat, stage: Stage, folder: Folder, page: string, next: Stage)
      returns (run': seq<Site>)
    requires run != [] && t < |run[0].tasks| && run[0].tasks[t].Saving? && ComesTo(fold, run, t, stage, folder, page)
    requires SaveStep(fold, run[|run| - 1], MoveTo(run[|run| - 1], t, next), t)
    ensures run' != [] && run'[0] == run[0] && ComesTo(fold, run', t, next, folder, page)
  {
    var last := run[|run| - 1];
    MoveOwn(fold, last, t, next);
    Longer(fold, run, t, MoveTo(last, t, next));
    run' := run + [MoveTo(last, t, next)];
  }

  // One step that changes its directory too.
  lemma FolderOn(fold: Uri -> Key, run: seq<Site>, t: nat, stage: Stage, folder: Folder, page: string,
                 folder': Folder, next: Stage)
      returns (run': seq<Site>)
    requires run != [] && t < |run[0].tasks| && run[0].tasks[t].Saving? && ComesTo(fold, run, t, stage, folder, page)
    requires var last := run[|run| - 1];
      SaveStep(fold, last, MoveTo(WithFolder(last, fold(run[0].tasks[t].uri), folder'), t, next), t)
    ensures run' != [] && run'[0] == run[0] && ComesTo(fold, run', t, next, folder', page)
  {
    var last := run[|run| - 1];
    var after := MoveTo(WithFolder(last, fold(run[0].tasks[t].uri), folder'), t, next);
    FolderOwn(fold, last, t, folder', next);
    Longer(fold, run, t, after);
    run' := run + [after];
  }

  // The page is read and the revision numbered.
  lemma NumberedRun(fold: Uri -> Key, s: Site, t: nat) returns (run: seq<Site>)
    requires Inside(s, t) && s.tasks[t].stage == Start
    requires var folder := FolderAt(s, fold(s.tasks[t].uri)); Numbered(folder.records) && folder.empties == 0
    ensures run != [] && run[0] == s
    ensures var uri := s.tasks[t].uri;
      var folder, page := FolderAt(s, fold(uri)), PageAt(s, uri);
      ComesTo(fold, run, t, HaveRevision(page, |folder.records| + 1), folder, page)
  {
    var uri := s.tasks[t].uri;
    var folder, page := FolderAt(s, fold(uri)), PageAt(s, uri);
    assert ComesTo(fold, [s], t, Start, folder, page);
    run := MoveOn(fold, [s], t, Start, folder, page, HaveOld(page));
    NumberedMax(folder.records);
    run := MoveOn(fold, run, t, HaveOld(page), folder, page, HaveRevision(page, |folder.records| + 1));
  }

  // A save that left an empty file.
  lemma ReservedRun(fold: Uri -> Key, s: Site, t: nat, next: Stage) returns (run: seq<Site>)
    requires Inside(s, t) && s.tasks[t].stage == Start
    requires var folder := FolderAt(s, fold(s.tasks[t].uri)); Numbered(folder.records) && folder.empties == 0
    requires var uri := s.tasks[t].uri;
      next in {Done, Reserved(PageAt(s, uri), |FolderAt(s, fold(uri)).records| + 1)}
    ensures run != [] && run[0] == s
    ensures var uri := s.tasks[t].uri;
      ComesTo(fold, run, t, next, Reserving(FolderAt(s, fold(uri))), PageAt(s, uri))
  {
    var uri := s.tasks[t].uri;
    var folder, page := FolderAt(s, fold(uri)), PageAt(s, uri);
    run := NumberedRun(fold, s, t);
    run := FolderOn(fold, run, t, HaveRevision(page, |folder.records| + 1), folder, page, Reserving(folder), next);
  }

  // A save that recorded the edit.
  lemma RecordedRun(fold: Uri -> Key, s: Site, t: nat) returns (run: seq<Site>)
    requires Inside(s, t) && s.tasks[t].stage == Start
    requires var folder := FolderAt(s, fold(s.tasks[t].uri)); Numbered(folder.records) && folder.empties == 0
    ensures run != [] && run[0] == s
    ensures var Saving(uri, content, _) := s.tasks[t];
      var folder, page := FolderAt(s, fold(uri)), PageAt(s, uri);
      var n := |folder.records| + 1;
      ComesTo(fold, run, t, Recorded(page, n), Recording(folder, Record(n, uri, page, content)), page)
  {
    var Saving(uri, content, _) := s.tasks[t];
    var folder, page := FolderAt(s, fold(uri)), PageAt(s, uri);
    var n := |folder.records| + 1;
    run := ReservedRun(fold, s, t, Reserved(page, n));
    run := FolderOn(fold, run, t, Reserved(page, n), Reserving(folder), page,
                    Recording(folder, Record(n, uri, page, content)), Recorded(page, n));
  }

  // Whatever one save does to its directory and page, the goroutine's steps in the
  // protocol can do too, from the same site.
  lemma OutcomeIsProtocolRun(fold: Uri -> Key, s: Site, t: nat, folder': Folder, page': string) returns (run: seq<Site>)
    requires Inside(s, t) && s.tasks[t].stage == Start
    requires var Saving(uri, content, _) := s.tasks[t];
      && Numbered(FolderAt(s, fold(uri)).records)
      && EditOutcome(uri, content, FolderAt(s, fold(uri)), PageAt(s, uri), folder', page')
    ensures run != [] && run[0] == s && ComesTo(fold, run, t, Done, folder', page')
  {
    var Saving(uri, content, _) := s.tasks[t];
    var folder, page := FolderAt(s, fold(uri)), PageAt(s, uri);
    if folder' == folder && page' == page {
      assert ComesTo(fold, [s], t, Start, folder, page);
      run := MoveOn(fold, [s], t, Start, folder, page, Done);
    } else if folder' == Reserving(folder) {
      run := ReservedRun(fold, s, t, Done);
    } else {
      var n := |folder.records| + 1;
      run := RecordedRun(fold, s, t);
      run := PublishOn(fold, run, t, n, folder', page, content, page');
    }
  }

  // The last step publishes, or fails to.
  lemma PublishOn(fold: Uri -> Key, run: seq<Site>, t: nat, n: int, folder: Folder, page: string, content: string, page': string)
      returns (run': seq<Site>)
    requires run != [] && t < |run[0].tasks| && run[0].tasks[t].Saving? && run[0].tasks[t].content == content
    requires ComesTo(fold, run, t, Recorded(page, n), folder, page) && page' in {page, content}
    requires PageAt(run[0], run[0].tasks[t].uri) == page
    ensures run' != [] && run'[0] == run[0] && ComesTo(fold, run', t, Done, folder, page')
  {
    var last := run[|run| - 1];
    if page' == page {
      run' := MoveOn(fold, run, t, Recorded(page, n), folder, page, Done);
    } else {
      var after := MoveTo(WithPage(last, last.tasks[t].uri, content), t, Done);
      Longer(fold, run, t, after);
      run' := run + [after];
      HistoryGrows(last, last.tasks[t].uri, content);
    }
  }

  lemma HistoryGrows(s: Site, uri: Uri, content: string)
    ensures HistoryOf(WithPage(s, uri, content), uri) == HistoryOf(s, uri) + {content}
  {
  }
}
