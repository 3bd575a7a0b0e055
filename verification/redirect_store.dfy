// Redirects are kept twice: as a list in redirects.json and, when a database is
// configured, as rows of the Redirect table.

module RedirectStore {
  import opened FilePaths
  import opened FileTree

  // Pages are named by the path of their file below the web root.
  datatype Redirect = Redirect(oldUri: Path, newUri: Path, date: int, active: bool, domain: string)

  datatype Source = Source(uri: Path, domain: string)

  function SourceOf(r: Redirect): Source {
    Source(r.oldUri, r.domain)
  }

  // ---- the list ----

  // Replace the first entry for the same source, or append.
  function Upsert(list: seq<Redirect>, r: Redirect): seq<Redirect> {
    if list == [] then [r]
    else if SourceOf(list[0]) == SourceOf(r) then [r] + list[1..]
    else [list[0]] + Upsert(list[1..], r)
  }

  // The first active entry for a source.
  function Find(list: seq<Redirect>, s: Source): Option<Redirect> {
    if list == [] then None
    else if SourceOf(list[0]) == s && list[0].active then Some(list[0])
    else Find(list[1..], s)
  }

  ghost predicate UniqueSources(list: seq<Redirect>) {
    forall i, j :: 0 <= i < j < |list| ==> SourceOf(list[i]) != SourceOf(list[j])
  }

  ghost predicate Mentions(list: seq<Redirect>, s: Source) {
    exists i :: 0 <= i < |list| && SourceOf(list[i]) == s
  }

  lemma MentionsTail(list: seq<Redirect>, s: Source)
    requires list != []
    ensures Mentions(list, s) <==> SourceOf(list[0]) == s || Mentions(list[1..], s)
  {
    if Mentions(list[1..], s) {
      var i :| 0 <= i < |list[1..]| && SourceOf(list[1..][i]) == s;
      assert SourceOf(list[i + 1]) == s;
    }
    if Mentions(list, s) && SourceOf(list[0]) != s {
      var i :| 0 <= i < |list| && SourceOf(list[i]) == s;
      assert SourceOf(list[1..][i - 1]) == s;
    }
  }

  lemma {:induction false} UpsertMentions(list: seq<Redirect>, r: Redirect, s: Source)
    ensures Mentions(Upsert(list, r), s) <==> Mentions(list, s) || s == SourceOf(r)
  {
    MentionsTail(Upsert(list, r), s);
    if list == [] {
    } else {
      MentionsTail(list, s);
      if SourceOf(list[0]) == SourceOf(r) {
        assert Upsert(list, r)[1..] == list[1..];
      } else {
        UpsertMentions(list[1..], r, s);
        assert Upsert(list, r)[1..] == Upsert(list[1..], r);
      }
    }
  }

  lemma UniqueTail(list: seq<Redirect>)
    requires list != []
    ensures UniqueSources(list) <==> UniqueSources(list[1..]) && !Mentions(list[1..], SourceOf(list[0]))
  {
    if UniqueSources(list[1..]) && !Mentions(list[1..], SourceOf(list[0])) {
      forall i, j | 0 <= i < j < |list| ensures SourceOf(list[i]) != SourceOf(list[j]) {
        assert list[j] == list[1..][j - 1];
        if i > 0 { assert list[i] == list[1..][i - 1]; }
      }
    }
  }

  lemma {:induction false} UpsertKeepsUnique(list: seq<Redirect>, r: Redirect)
    requires UniqueSources(list)
    ensures UniqueSources(Upsert(list, r))
  {
    if list != [] {
      UniqueTail(list);
      UniqueTail(Upsert(list, r));
      if SourceOf(list[0]) == SourceOf(r) {
        assert Upsert(list, r)[1..] == list[1..];
      } else {
        UpsertKeepsUnique(list[1..], r);
        UpsertMentions(list[1..], r, SourceOf(list[0]));
        assert Upsert(list, r)[1..] == Upsert(list[1..], r);
      }
    }
  }

  lemma {:induction false} NotMentionedNotFound(list: seq<Redirect>, s: Source)
    requires !Mentions(list, s)
    ensures Find(list, s) == None
  {
    if list != [] {
      MentionsTail(list, s);
      NotMentionedNotFound(list[1..], s);
    }
  }

  // What a lookup sees of an upsert.
  lemma {:induction false} UpsertFind(list: seq<Redirect>, r: Redirect, s: Source)
    requires UniqueSources(list)
    ensures Find(Upsert(list, r), s) ==
      if s != SourceOf(r) then Find(list, s) else if r.active then Some(r) else None
  {
    if list != [] {
      UniqueTail(list);
      if SourceOf(list[0]) == SourceOf(r) {
        assert Upsert(list, r)[1..] == list[1..];
        if s == SourceOf(r) { NotMentionedNotFound(list[1..], s); }
      } else {
        UpsertFind(list[1..], r, s);
        assert Upsert(list, r)[1..] == Upsert(list[1..], r);
      }
    }
  }

  // ---- the table ----

  // DELETE every row of the source, INSERT the new one.
  function Without(rows: seq<Redirect>, s: Source): seq<Redirect> {
    if rows == [] then []
    else if SourceOf(rows[0]) == s then Without(rows[1..], s)
    else [rows[0]] + Without(rows[1..], s)
  }

  function Replace(rows: seq<Redirect>, r: Redirect): seq<Redirect> {
    Without(rows, SourceOf(r)) + [r]
  }

  // The newest active row of a source.
  function Newest(rows: seq<Redirect>, s: Source): Option<Redirect> {
    if rows == [] then None
    else
      var rest := Newest(rows[1..], s);
      if SourceOf(rows[0]) == s && rows[0].active && (rest == None || rest.value.date <= rows[0].date)
      then Some(rows[0]) else rest
  }

  lemma {:induction false} WithoutNewest(rows: seq<Redirect>, s: Source, other: Source)
    ensures Newest(Without(rows, s), other) == if other == s then None else Newest(rows, other)
  {
    if rows != [] {
      WithoutNewest(rows[1..], s, other);
      if SourceOf(rows[0]) != s {
        assert Without(rows, s)[1..] == Without(rows[1..], s);
      }
    }
  }

  lemma {:induction false} NewestOfAppend(rows: seq<Redirect>, r: Redirect, s: Source)
    requires Newest(rows, SourceOf(r)) == None
    ensures Newest(rows + [r], s) == if s == SourceOf(r) && r.active then Some(r) else Newest(rows, s)
  {
    if rows == [] {
      assert rows + [r] == [r];
      assert Newest([r][1..], s) == None;
    } else {
      assert (rows + [r])[1..] == rows[1..] + [r];
      NewestOfAppend(rows[1..], r, s);
    }
  }

  // What a lookup sees of a replaced row.
  lemma ReplaceNewest(rows: seq<Redirect>, r: Redirect, s: Source)
    ensures Newest(Replace(rows, r), s) ==
      if s != SourceOf(r) then Newest(rows, s) else if r.active then Some(r) else None
  {
    WithoutNewest(rows, SourceOf(r), SourceOf(r));
    WithoutNewest(rows, SourceOf(r), s);
    NewestOfAppend(Without(rows, SourceOf(r)), r, s);
  }

  lemma {:induction false} WithoutMentions(rows: seq<Redirect>, s: Source, other: Source)
    ensures Mentions(Without(rows, s), other) <==> other != s && Mentions(rows, other)
  {
    if rows != [] {
      MentionsTail(rows, other);
      WithoutMentions(rows[1..], s, other);
      if SourceOf(rows[0]) != s {
        MentionsTail(Without(rows, s), other);
        assert Without(rows, s)[1..] == Without(rows[1..], s);
      }
    }
  }

  lemma {:induction false} ReplaceKeepsUnique(rows: seq<Redirect>, r: Redirect)
    requires UniqueSources(rows)
    ensures UniqueSources(Replace(rows, r))
  {
    var rest := Without(rows, SourceOf(r));
    WithoutMentions(rows, SourceOf(r), SourceOf(r));
    WithoutKeepsUnique(rows, SourceOf(r));
    forall i, j | 0 <= i < j < |rest + [r]| ensures SourceOf((rest + [r])[i]) != SourceOf((rest + [r])[j]) {
    }
  }

  lemma {:induction false} WithoutKeepsUnique(rows: seq<Redirect>, s: Source)
    requires UniqueSources(rows)
    ensures UniqueSources(Without(rows, s))
  {
    if rows != [] {
      UniqueTail(rows);
      WithoutKeepsUnique(rows[1..], s);
      if SourceOf(rows[0]) != s {
        WithoutMentions(rows[1..], s, SourceOf(rows[0]));
        assert Without(rows, s)[1..] == Without(rows[1..], s);
        UniqueTail(Without(rows, s));
      }
    }
  }

  // ---- the store ----

  // Both representations answer every lookup as the map of last saved redirects does.
  ghost predicate Answers(find: Option<Redirect>, saved: map<Source, Redirect>, s: Source) {
    find == if s in saved && saved[s].active then Some(saved[s]) else None
  }

  // findRedirect: the table first, then the list.
  function FindRedirect(list: seq<Redirect>, rows: seq<Redirect>, withDatabase: bool, s: Source): Option<Redirect> {
    if withDatabase && Newest(rows, s).Some? then Newest(rows, s) else Find(list, s)
  }

  // ---- saves ----

  // Both stores; what was last saved for each source; and the sources for which a
  // failed save has since left something behind.
  datatype Stores = Stores(list: seq<Redirect>, rows: seq<Redirect>, saved: map<Source, Redirect>, torn: set<Source>)

  function Saved(s: Stores, r: Redirect, withDatabase: bool): Stores {
    Stores(Upsert(s.list, r), if withDatabase then Replace(s.rows, r) else s.rows,
           s.saved[SourceOf(r) := r], s.torn - {SourceOf(r)})
  }

  // A save succeeds in full, or each of its writes may have taken effect or not.
  ghost predicate SaveOutcome(s: Stores, s': Stores, r: Redirect, withDatabase: bool, ok: bool) {
    if ok then s' == Saved(s, r, withDatabase)
    else
      && s'.list in {s.list, Upsert(s.list, r)}
      && s'.rows in {s.rows, if withDatabase then Replace(s.rows, r) else s.rows}
      && s'.saved == s.saved
      && s'.torn == if s'.list == s.list && s'.rows == s.rows then s.torn else s.torn + {SourceOf(r)}
  }

  // For every source that is not torn, list and table answer with its last save.
  ghost predicate InStep(s: Stores, withDatabase: bool) {
    && UniqueSources(s.list) && UniqueSources(s.rows) && (!withDatabase ==> s.rows == [])
    && (forall source :: source !in s.torn ==> Answers(Find(s.list, source), s.saved, source))
    && (forall source :: withDatabase && source !in s.torn ==> Answers(Newest(s.rows, source), s.saved, source))
  }

  lemma SaveStaysInStep(s: Stores, s': Stores, r: Redirect, withDatabase: bool, ok: bool)
    requires InStep(s, withDatabase) && SaveOutcome(s, s', r, withDatabase, ok)
    ensures InStep(s', withDatabase)
  {
    UpsertKeepsUnique(s.list, r);
    ReplaceKeepsUnique(s.rows, r);
    forall source
      ensures source !in s'.torn ==> Answers(Find(s'.list, source), s'.saved, source)
      ensures withDatabase && source !in s'.torn ==> Answers(Newest(s'.rows, source), s'.saved, source)
    {
      UpsertFind(s.list, r, source);
      ReplaceNewest(s.rows, r, source);
    }
  }

  // ---- runs of saves ----

  datatype Call = Call(redirect: Redirect, ok: bool)

  ghost predicate SavesAt(run: seq<Stores>, calls: seq<Call>, withDatabase: bool, i: int)
    requires 0 <= i < |calls| && |run| == |calls| + 1
  {
    SaveOutcome(run[i], run[i + 1], calls[i].redirect, withDatabase, calls[i].ok)
  }

  ghost predicate IsRun(run: seq<Stores>, calls: seq<Call>, withDatabase: bool) {
    && |run| == |calls| + 1 && InStep(run[0], withDatabase)
    && forall i :: 0 <= i < |calls| ==> SavesAt(run, calls, withDatabase, i)
  }

  lemma EmptyIsInStep(withDatabase: bool)
    ensures InStep(Stores([], [], map[], {}), withDatabase)
  {
  }

  lemma {:induction false} RunStaysInStep(run: seq<Stores>, calls: seq<Call>, withDatabase: bool, i: nat)
    requires IsRun(run, calls, withDatabase) && i < |run|
    ensures InStep(run[i], withDatabase)
  {
    if i > 0 {
      RunStaysInStep(run, calls, withDatabase, i - 1);
      assert SavesAt(run, calls, withDatabase, i - 1);
      SaveStaysInStep(run[i - 1], run[i], calls[i - 1].redirect, withDatabase, calls[i - 1].ok);
    }
  }

  // After any run of saves, some failing in any way: one entry per source in the
  // list, and every lookup gives the last successful save of its source, whichever
  // store answers, unless a later failed save of that source left something behind.
  lemma LookupsAgreeInEveryRun(run: seq<Stores>, calls: seq<Call>, withDatabase: bool, i: nat, source: Source)
    requires IsRun(run, calls, withDatabase) && i < |run|
    ensures UniqueSources(run[i].list)
    ensures source !in run[i].torn ==>
      && Answers(FindRedirect(run[i].list, run[i].rows, withDatabase, source), run[i].saved, source)
      && (withDatabase ==> Newest(run[i].rows, source) == Find(run[i].list, source))
  {
    RunStaysInStep(run, calls, withDatabase, i);
  }

  // When failed saves change nothing, nothing tears.
  lemma {:induction false} NothingTears(run: seq<Stores>, calls: seq<Call>, withDatabase: bool, i: nat)
    requires IsRun(run, calls, withDatabase) && i < |run| && run[0].torn == {}
    requires forall k :: 0 <= k < |calls| && !calls[k].ok ==> run[k + 1] == run[k]
    ensures run[i].torn == {}
  {
    if i > 0 {
      NothingTears(run, calls, withDatabase, i - 1);
      assert SavesAt(run, calls, withDatabase, i - 1);
    }
  }

  // The last successful save of a source.
  function LastSaved(calls: seq<Call>, source: Source): Option<Redirect> {
    if calls == [] then None
    else
      var last := calls[|calls| - 1];
      if last.ok && SourceOf(last.redirect) == source then Some(last.redirect) else LastSaved(calls[..|calls| - 1], source)
  }

  lemma {:induction false} SavedIsHistory(run: seq<Stores>, calls: seq<Call>, withDatabase: bool, i: nat, source: Source)
    requires IsRun(run, calls, withDatabase) && i < |run| && run[0].saved == map[]
    ensures LastSaved(calls[..i], source) == if source in run[i].saved then Some(run[i].saved[source]) else None
  {
    if i > 0 {
      SavedIsHistory(run, calls, withDatabase, i - 1, source);
      assert SavesAt(run, calls, withDatabase, i - 1);
      assert calls[..i][..i - 1] == calls[..i - 1];
    }
  }

  // From empty stores, whatever saves have failed: a lookup gives what the history of
  // calls says, the last successful save, unless a later failed one tore its source.
  lemma LookupsTellTheHistory(run: seq<Stores>, calls: seq<Call>, withDatabase: bool, i: nat, source: Source)
    requires |run| == |calls| + 1 && run[0] == Stores([], [], map[], {}) && i < |run|
    requires forall k :: 0 <= k < |calls| ==> SavesAt(run, calls, withDatabase, k)
    ensures source !in run[i].torn ==>
      FindRedirect(run[i].list, run[i].rows, withDatabase, source) ==
        var last := LastSaved(calls[..i], source);
        if last.Some? && last.value.active then last else None
  {
    EmptyIsInStep(withDatabase);
    LookupsAgreeInEveryRun(run, calls, withDatabase, i, source);
    SavedIsHistory(run, calls, withDatabase, i, source);
  }

  // How atomicWriteFile may end.
  datatype WriteResult = Written | NotWritten | WrittenWithError

  class Store {
    const withDatabase: bool
    var list: seq<Redirect>  // redirects.json; empty while the file does not exist
    var rows: seq<Redirect>  // the Redirect table
    ghost var saved: map<Source, Redirect>  // the last successful save of each source
    ghost var faults: nat  // failures of the file system or the database
    ghost var late: nat    // those reported although the write had taken effect
    ghost var torn: set<Source>  // sources for which a failed save left something behind

    constructor (withDatabase: bool)
      ensures Valid() && this.withDatabase == withDatabase && State() == Stores([], [], map[], {})
      ensures faults == late == 0
    {
      this.withDatabase := withDatabase;
      list, rows := [], [];
      saved, torn, faults, late := map[], {}, 0, 0;
    }

    ghost function State(): Stores
      reads this
    {
      Stores(list, rows, saved, torn)
    }

    ghost predicate Valid()
      reads this
    {
      InStep(State(), withDatabase)
    }

    // Ask the environment whether the next call breaks.
    method Fault() returns (bad: bool)
      modifies this`faults
      ensures faults == old(faults) + if bad then 1 else 0
    {
      bad := *;
      if bad { faults := faults + 1; }
    }

    method WriteList(next: seq<Redirect>) returns (result: WriteResult)
      modifies this`list, this`faults, this`late
      ensures list == if result == NotWritten then old(list) else next
      ensures faults == old(faults) + if result == Written then 0 else 1
      ensures late == old(late) + if result == WrittenWithError then 1 else 0
    {
      var bad := Fault();
      if bad { return NotWritten; }
      list := next;
      bad := Fault();
      if bad { late := late + 1; }
      result := if bad then WrittenWithError else Written;
    }

    // The loop of saveRedirect: replace in place, or append.
    method UpsertInPlace(r: Redirect) returns (next: seq<Redirect>)
      ensures next == Upsert(list, r)
    {
      next := list;
      var i := 0;
      while i < |next|
        invariant 0 <= i <= |next| && next == list
        invariant Upsert(list, r) == list[..i] + Upsert(list[i..], r)
      {
        if SourceOf(next[i]) == SourceOf(r) {
          assert list[i..][1..] == list[i + 1..];
          next := next[i := r];
          assert next == list[..i] + ([r] + list[i + 1..]);
          return;
        }
        assert list[i..][1..] == list[i + 1..];
        assert list[..i] + ([list[i]] + Upsert(list[i + 1..], r)) == list[..i + 1] + Upsert(list[i + 1..], r);
        i := i + 1;
      }
      assert list[..i] == list && list[i..] == [];
      next := next + [r];
    }

    // saveRedirectInDB: one transaction, whose commit may report an error although it
    // took effect.
    method SaveRow(r: Redirect) returns (ok: bool)
      modifies this`rows, this`faults, this`late
      ensures rows == old(rows) || rows == Replace(old(rows), r)
      ensures ok ==> rows == Replace(old(rows), r)
      ensures faults == old(faults) + if ok then 0 else 1
      ensures late == old(late) + if !ok && rows != old(rows) then 1 else 0
    {
      var bad := Fault();
      if bad { return false; }
      ghost var before := rows;
      rows := Replace(rows, r);
      bad := Fault();
      ok := !bad;
      if bad && rows != before { late := late + 1; }
    }

    // saveRedirect: write the list, then the row; if the row fails, write the old
    // list back.  A failure leaves something behind only if a write took effect late
    // or writing back failed too.
    method SaveRedirect(r: Redirect) returns (ok: bool)
      requires Valid()
      modifies this
      ensures Valid() && SaveOutcome(old(State()), State(), r, withDatabase, ok)
      ensures old(faults) <= faults && old(late) <= late && (ok <==> faults == old(faults))
      ensures !ok && rows != old(rows) ==> old(late) < late
      ensures !ok && list != old(list) ==> old(late) < late || old(faults) + 2 <= faults
    {
      var unreadable := Fault();
      if unreadable { return false; }
      var previous := list;
      var next := UpsertInPlace(r);
      var written := WriteList(next);
      if written == Written && withDatabase {
        ok := SaveRow(r);
        if !ok { var restored := WriteList(previous); }
      } else {
        ok := written == Written;
      }
      if ok {
        saved, torn := saved[SourceOf(r) := r], torn - {SourceOf(r)};
      } else if list != previous || rows != old(rows) {
        torn := torn + {SourceOf(r)};
      }
      SaveStaysInStep(old(State()), State(), r, withDatabase, ok);
    }

    // A source that is not torn: list and table give the same answer, that of its
    // last successful save.
    lemma StoresAgree(s: Source)
      requires Valid() && s !in torn
      ensures Answers(FindRedirect(list, rows, withDatabase, s), saved, s) && Answers(Find(list, s), saved, s)
      ensures withDatabase ==> Newest(rows, s) == Find(list, s)
    {
    }
  }
}
