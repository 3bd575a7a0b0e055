// savePostDataInDB under the keyed mutex: the next revision of a page is read and
// inserted in one transaction, with any of its steps failing and with any number of
// saves running at once.

module PostRevisions {
  import opened KeyedMutexProtocol

  datatype Page = Page(domain: string, uri: string)

  datatype Row = Row(page: Page, revision: int)

  // The lock key: the domain and the URI with a NUL between them.
  function LockKey(p: Page): Key {
    p.domain + "\0" + p.uri
  }

  // Pages of domains without NUL never share a lock.
  lemma LockKeyIsInjective(p: Page, q: Page)
    requires '\0' !in p.domain && '\0' !in q.domain && LockKey(p) == LockKey(q)
    ensures p == q
  {
    DomainEndsAtNul(p);
    DomainEndsAtNul(q);
    var key := LockKey(p);
    assert p.domain == key[..|p.domain|] && q.domain == key[..|q.domain|];
    assert p.uri == key[|p.domain| + 1..] && q.uri == key[|q.domain| + 1..];
  }

  lemma DomainEndsAtNul(p: Page)
    requires '\0' !in p.domain
    ensures var key := LockKey(p);
      |p.domain| < |key| && key[|p.domain|] == '\0' && forall i :: 0 <= i < |p.domain| ==> key[i] != '\0'
  {
    var key := LockKey(p);
    assert forall i :: 0 <= i < |p.domain| ==> key[i] == p.domain[i];
  }

  // With one in the domain they may.
  lemma NulInDomainShares()
    ensures LockKey(Page("a", "b\0c")) == LockKey(Page("a\0b", "c"))
  {
  }

  // ---- the table ----

  // COALESCE(MAX(Revision), 0) over the rows of one page.
  function MaxOf(table: seq<Row>, p: Page): int {
    if table == [] then 0
    else
      var last, rest := table[|table| - 1], MaxOf(table[..|table| - 1], p);
      if last.page == p && (last.revision > rest || !HasPage(table[..|table| - 1], p)) then last.revision else rest
  }

  predicate HasPage(table: seq<Row>, p: Page) {
    exists i :: 0 <= i < |table| && table[i].page == p
  }

  // The revisions of one page in the order they were committed.
  function RevisionsOf(table: seq<Row>, p: Page): seq<int> {
    if table == [] then []
    else
      var last, rest := table[|table| - 1], RevisionsOf(table[..|table| - 1], p);
      if last.page == p then rest + [last.revision] else rest
  }

  ghost predicate Contiguous(revisions: seq<int>) {
    forall i :: 0 <= i < |revisions| ==> revisions[i] == i + 1
  }

  lemma {:induction false} MaxBounds(table: seq<Row>, p: Page)
    ensures forall i :: 0 <= i < |table| && table[i].page == p ==> table[i].revision <= MaxOf(table, p)
    ensures !HasPage(table, p) ==> MaxOf(table, p) == 0
  {
    if table != [] {
      MaxBounds(table[..|table| - 1], p);
      assert table[|table| - 1].page == p ==> HasPage(table, p);
    }
  }

  // The table has grown from `before`, each new row one above what its page had.
  ghost predicate Grown(before: seq<Row>, table: seq<Row>) {
    before <= table && forall i :: |before| <= i < |table| ==> NumberedAt(table, i)
  }

  ghost predicate NumberedAt(table: seq<Row>, i: int)
    requires 0 <= i < |table|
  {
    table[i].revision == MaxOf(table[..i], table[i].page) + 1
  }

  lemma GrowsByNext(before: seq<Row>, table: seq<Row>, p: Page)
    requires Grown(before, table)
    ensures Grown(before, table + [Row(p, MaxOf(table, p) + 1)])
  {
    var more := table + [Row(p, MaxOf(table, p) + 1)];
    forall i | |before| <= i < |more| ensures NumberedAt(more, i) {
      if i < |table| {
        assert NumberedAt(table, i) && more[..i] == table[..i];
      } else {
        assert more[..i] == table;
      }
    }
  }

  lemma OtherPagesKeepTheirMax(table: seq<Row>, row: Row, p: Page)
    requires row.page != p
    ensures MaxOf(table + [row], p) == MaxOf(table, p)
  {
    assert (table + [row])[..|table|] == table;
  }

  // ---- the protocol ----

  datatype Stage = Start | Numbered(revision: int) | Done

  datatype Task = NoTask | Saving(page: Page, stage: Stage)

  datatype Posts = Posts(mutex: State, tasks: seq<Task>, table: seq<Row>)

  ghost predicate Inside(s: Posts, t: nat) {
    && t < |s.tasks| == |s.mutex.threads|
    && s.mutex.threads[t].Holding? && s.tasks[t].Saving?
  }

  function MoveTo(s: Posts, t: nat, stage: Stage): Posts
    requires t < |s.tasks| && s.tasks[t].Saving?
  {
    s.(tasks := s.tasks[t := s.tasks[t].(stage := stage)])
  }

  ghost predicate BeginStep(s: Posts, s': Posts, t: nat, page: Page) {
    && t < |s.tasks| && s.tasks[t].NoTask?
    && RegisterStep(s.mutex, s'.mutex, t, LockKey(page))
    && s' == s.(mutex := s'.mutex, tasks := s.tasks[t := Saving(page, Start)])
  }

  ghost predicate EnterStep(s: Posts, s': Posts, t: nat) {
    LockStep(s.mutex, s'.mutex, t) && s' == s.(mutex := s'.mutex)
  }

  // Begin the transaction and read the maximum; either may fail.
  ghost predicate ReadStep(s: Posts, s': Posts, t: nat) {
    && Inside(s, t) && s.tasks[t].stage == Start
    && (s' == MoveTo(s, t, Numbered(MaxOf(s.table, s.tasks[t].page) + 1)) || s' == MoveTo(s, t, Done))
  }

  // Insert and commit: the row is there, whatever the commit reports, or it is not.
  ghost predicate CommitStep(s: Posts, s': Posts, t: nat) {
    && Inside(s, t) && s.tasks[t].stage.Numbered?
    && (|| s' == MoveTo(s.(table := s.table + [Row(s.tasks[t].page, s.tasks[t].stage.revision)]), t, Done)
        || s' == MoveTo(s, t, Done))
  }

  ghost predicate LeaveStep(s: Posts, s': Posts, t: nat) {
    && Inside(s, t) && s.tasks[t].stage.Done?
    && UnlockStep(s.mutex, s'.mutex, t) && s' == s.(mutex := s'.mutex)
  }

  ghost predicate EndStep(s: Posts, s': Posts, t: nat) {
    && UnregisterStep(s.mutex, s'.mutex, t) && t < |s.tasks|
    && s' == s.(mutex := s'.mutex, tasks := s.tasks[t := NoTask])
  }

  ghost predicate BeginsSave(s: Posts, s': Posts, t: nat) {
    exists page :: BeginStep(s, s', t, page)
  }

  ghost predicate Step(s: Posts, s': Posts, t: nat) {
    || BeginsSave(s, s', t) || EnterStep(s, s', t) || ReadStep(s, s', t) || CommitStep(s, s', t)
    || LeaveStep(s, s', t) || EndStep(s, s', t)
  }

  // ---- what the steps keep ----

  ghost predicate TasksMatch(s: Posts) {
    && |s.tasks| == |s.mutex.threads|
    && forall t :: 0 <= t < |s.tasks| ==>
         && (s.tasks[t].NoTask? <==> s.mutex.threads[t].Idle?)
         && (s.tasks[t].Saving? ==> s.mutex.threads[t].key == LockKey(s.tasks[t].page))
         && (s.mutex.threads[t].Registered? ==> s.tasks[t].stage == Start)
  }

  // A number read is still the next one.
  ghost predicate StillNext(s: Posts, t: nat) {
    t < |s.tasks| && s.tasks[t].Saving? && s.tasks[t].stage.Numbered? ==>
      s.tasks[t].stage.revision == MaxOf(s.table, s.tasks[t].page) + 1
  }

  ghost predicate PostsInv(before: seq<Row>, s: Posts) {
    && Inv(s.mutex) && TasksMatch(s) && Grown(before, s.table)
    && forall t: nat :: Inside(s, t) ==> StillNext(s, t)
  }

  lemma InsideAlone(s: Posts, t: nat, u: nat)
    requires Inv(s.mutex) && TasksMatch(s) && Inside(s, t) && Inside(s, u) && s.tasks[t].page == s.tasks[u].page
    ensures t == u
  {
    var id := s.mutex.locks[LockKey(s.tasks[t].page)];
    assert HeldBy(s.mutex, id, t) && HeldBy(s.mutex, id, u);
  }

  // What another goroutine read is still the next number of its page.
  lemma OthersStillNext(s: Posts, s': Posts, t: nat, u: nat)
    requires Inv(s.mutex) && TasksMatch(s) && (ReadStep(s, s', t) || CommitStep(s, s', t))
    requires Inside(s, u) && StillNext(s, u) && u != t
    ensures StillNext(s', u)
  {
    if s.tasks[u].page == s.tasks[t].page {
      InsideAlone(s, t, u);
    } else if s'.table != s.table {
      OtherPagesKeepTheirMax(s.table, s'.table[|s.table|], s.tasks[u].page);
    }
  }

  lemma SaveStepGrows(before: seq<Row>, s: Posts, s': Posts, t: nat)
    requires Grown(before, s.table) && Inside(s, t) && StillNext(s, t) && (ReadStep(s, s', t) || CommitStep(s, s', t))
    ensures Grown(before, s'.table) && StillNext(s', t)
  {
    GrowsByNext(before, s.table, s.tasks[t].page);
  }

  lemma SaveStepKeepsInv(before: seq<Row>, s: Posts, s': Posts, t: nat)
    requires PostsInv(before, s) && (ReadStep(s, s', t) || CommitStep(s, s', t))
    ensures PostsInv(before, s')
  {
    SaveStepGrows(before, s, s', t);
    forall u: nat | Inside(s', u) ensures StillNext(s', u) {
      if u != t {
        assert Inside(s, u);
        OthersStillNext(s, s', t, u);
      }
    }
  }

  lemma MutexStepKeepsInv(before: seq<Row>, s: Posts, s': Posts, t: nat)
    requires PostsInv(before, s) && Step(s, s', t) && !ReadStep(s, s', t) && !CommitStep(s, s', t)
    ensures PostsInv(before, s')
  {
    if BeginsSave(s, s', t) {
      var page :| BeginStep(s, s', t, page);
      assert RegisterStep(s.mutex, s'.mutex, t, LockKey(page));
    }
    assert Next(s.mutex, s'.mutex, t);
    NextKeepsInv(s.mutex, s'.mutex, t);
    forall u: nat | Inside(s', u) ensures StillNext(s', u) {
      if u != t { assert Inside(s, u) && StillNext(s, u); }
    }
  }

  // ---- every interleaving ----

  ghost predicate SomeStep(s: Posts, s': Posts) {
    exists t: nat :: Step(s, s', t)
  }

  ghost predicate StepAt(run: seq<Posts>, i: int)
    requires 0 < i < |run|
  {
    SomeStep(run[i - 1], run[i])
  }

  // n goroutines, and whatever the table held before.
  ghost predicate IsRun(run: seq<Posts>, n: nat, before: seq<Row>) {
    && run != [] && run[0] == Posts(Init(n), seq(n, _ => NoTask), before)
    && forall i :: 0 < i < |run| ==> StepAt(run, i)
  }

  lemma {:induction false} RunKeepsInv(run: seq<Posts>, n: nat, before: seq<Row>, i: nat)
    requires IsRun(run, n, before) && i < |run|
    ensures PostsInv(before, run[i])
  {
    if i == 0 {
      InitInv(n);
    } else {
      RunKeepsInv(run, n, before, i - 1);
      var s, s' := run[i - 1], run[i];
      assert StepAt(run, i);
      var t: nat :| Step(s, s', t);
      if ReadStep(s, s', t) || CommitStep(s, s', t) {
        SaveStepKeepsInv(before, s, s', t);
      } else {
        MutexStepKeepsInv(before, s, s', t);
      }
    }
  }

  // ---- what every run guarantees ----

  lemma {:induction false} ContiguousMax(table: seq<Row>, p: Page)
    requires Contiguous(RevisionsOf(table, p))
    ensures MaxOf(table, p) == |RevisionsOf(table, p)|
    ensures HasPage(table, p) <==> RevisionsOf(table, p) != []
  {
    if table != [] {
      var rest := table[..|table| - 1];
      var all := RevisionsOf(table, p);
      var last := table[|table| - 1];
      if last.page == p {
        assert all == RevisionsOf(rest, p) + [last.revision];
        assert Contiguous(RevisionsOf(rest, p)) by {
          assert forall i :: 0 <= i < |all| - 1 ==> RevisionsOf(rest, p)[i] == all[i];
        }
        assert last.revision == all[|all| - 1] == |all|;
      }
      ContiguousMax(rest, p);
      if HasPage(rest, p) {
        var k :| 0 <= k < |rest| && rest[k].page == p;
        assert table[k].page == p;
      }
    }
  }

  lemma {:induction false} GrownStaysContiguous(before: seq<Row>, table: seq<Row>, p: Page)
    requires Grown(before, table) && Contiguous(RevisionsOf(before, p))
    ensures Contiguous(RevisionsOf(table, p))
    decreases |table|
  {
    if table != before {
      var rest := table[..|table| - 1];
      assert before <= rest;
      forall i | |before| <= i < |rest| ensures NumberedAt(rest, i) {
        assert NumberedAt(table, i) && rest[..i] == table[..i];
      }
      GrownStaysContiguous(before, rest, p);
      ContiguousMax(rest, p);
      assert NumberedAt(table, |table| - 1);
    }
  }

  ghost predicate NewRowsIncrease(before: seq<Row>, table: seq<Row>) {
    forall i, j :: 0 <= i < j < |table| && |before| <= j && table[i].page == table[j].page ==>
      table[i].revision < table[j].revision
  }

  // Whatever saves run at once and wherever they fail: every new row of a page is
  // above all the rows it had, so no revision repeats; and a page numbered 1..n
  // without gap stays so.
  lemma PostRevisionsIncrease(run: seq<Posts>, n: nat, before: seq<Row>, k: nat, p: Page)
    requires IsRun(run, n, before) && k < |run|
    ensures before <= run[k].table
    ensures NewRowsIncrease(before, run[k].table)
    ensures Contiguous(RevisionsOf(before, p)) ==> Contiguous(RevisionsOf(run[k].table, p))
  {
    RunKeepsInv(run, n, before, k);
    var table := run[k].table;
    forall i, j | 0 <= i < j < |table| && |before| <= j && table[i].page == table[j].page
      ensures table[i].revision < table[j].revision
    {
      assert NumberedAt(table, j) && table[..j][i] == table[i];
      MaxBounds(table[..j], table[j].page);
    }
    if Contiguous(RevisionsOf(before, p)) { GrownStaysContiguous(before, table, p); }
  }

  // ---- the program ----

  class Table {
    var rows: seq<Row>
    ghost var faults: nat

    constructor (rows: seq<Row>)
      ensures this.rows == rows && faults == 0
    {
      this.rows := rows;
      faults := 0;
    }

    // Ask the environment whether the next call breaks.
    method Fault() returns (bad: bool)
      modifies this`faults
      ensures faults == old(faults) + if bad then 1 else 0
    {
      bad := *;
      if bad { faults := faults + 1; }
    }

    // savePostDataInDB while the lock of the page is held: nothing else adds rows of
    // this page meanwhile.  A commit may report an error after it took effect.
    method SavePost(page: Page) returns (ok: bool, revision: int, ghost committed: bool)
      modifies this`rows, this`faults
      ensures ok ==> committed
      ensures rows == if committed then old(rows) + [Row(page, revision)] else old(rows)
      ensures committed ==> revision == MaxOf(old(rows), page) + 1
      ensures forall before :: Grown(before, old(rows)) ==> Grown(before, rows)
      ensures old(faults) <= faults && (ok <==> faults == old(faults))
    {
      revision, committed := 0, false;
      var bad := Fault();  // Begin
      if bad { return false, revision, committed; }
      bad := Fault();  // the query
      if bad { return false, revision, committed; }
      revision := MaxOf(rows, page) + 1;
      forall before ensures Grown(before, rows) ==> Grown(before, rows + [Row(page, revision)]) {
        if Grown(before, rows) { GrowsByNext(before, rows, page); }
      }
      bad := Fault();  // the insert, or a commit that did nothing
      if bad { return false, revision, committed; }
      rows, committed := rows + [Row(page, revision)], true;
      bad := Fault();
      ok := !bad;
    }
  }

  // Whatever one save does to the table, two steps of its goroutine in the protocol do.
  lemma OutcomeIsProtocolRun(s: Posts, t: nat, rows: seq<Row>, committed: bool) returns (mid: Posts, last: Posts)
    requires Inside(s, t) && s.tasks[t].stage == Start
    requires rows == s.table + if committed then [Row(s.tasks[t].page, MaxOf(s.table, s.tasks[t].page) + 1)] else []
    ensures Step(s, mid, t) && Step(mid, last, t)
    ensures last == MoveTo(s.(table := rows), t, Done)
  {
    var next := Numbered(MaxOf(s.table, s.tasks[t].page) + 1);
    mid := MoveTo(s, t, next);
    last := MoveTo(s.(table := rows), t, Done);
    assert ReadStep(s, mid, t);
    assert s.table + [] == s.table;
    assert last.tasks == MoveTo(mid, t, Done).tasks;
    assert CommitStep(mid, last, t);
  }
}
