// The save worker: tasks wait in a bounded channel; a worker takes one, tries to
// save it, and after a failure puts it back, from a waiting goroutine if the channel
// is full.  A fatal error ends the worker; another one is started.

module SaveQueue {
  type Task = string

  datatype SaveResult = Saved | Busy | Fatal

  // Waiting for a task, about to save one, or about to put one back.
  datatype Worker = Free | Carrying(task: Task) | Failed(task: Task, fatal: bool)

  // `parked` are the tasks of goroutines waiting to send, `rows` what transactions
  // have committed, `doubled` what was committed although the save reported an error.
  // `permits` counts the entries of respawnLock, `starting` the workers not yet up.
  datatype State = State(queue: seq<Task>, parked: multiset<Task>, workers: seq<Worker>, permits: nat, starting: nat,
                         rows: multiset<Task>, doubled: multiset<Task>, submitted: multiset<Task>)

  datatype Limits = Limits(capacity: nat, workers: nat)

  function Init(): State {
    State([], multiset{}, [], 0, 0, multiset{}, multiset{}, multiset{})
  }

  // A send: into the channel if there is room, else from a goroutine that waits.
  function Sent(l: Limits, s: State, task: Task): State {
    if |s.queue| < l.capacity then s.(queue := s.queue + [task]) else s.(parked := s.parked + multiset{task})
  }

  function Committed(s: State, task: Task): State {
    s.(rows := s.rows + multiset{task})
  }

  function WithWorker(s: State, w: nat, worker: Worker): State
    requires w < |s.workers|
  {
    s.(workers := s.workers[w := worker])
  }

  // respawnLock is released when a worker ends.
  function WithoutWorker(s: State, w: nat): State
    requires w < |s.workers| && s.permits > 0
  {
    s.(workers := s.workers[..w] + s.workers[w + 1..], permits := s.permits - 1)
  }

  // What a save does to the table; a failing commit may take effect all the same.
  function AfterSave(s: State, task: Task, result: SaveResult, committed: bool): State {
    if result == Saved then Committed(s, task)
    else if committed then Committed(s, task).(doubled := s.doubled + multiset{task})
    else s
  }

  // processDatabaseSavePostTask on the shared state, when nothing comes between.
  function Processed(l: Limits, s: State, task: Task, result: SaveResult, committed: bool): State {
    var saved := AfterSave(s, task, result, committed);
    if result == Saved then saved else Sent(l, saved, task)
  }

  datatype Step =
    | Submit(task: Task)
    | Deliver(task: Task)
    | Take(w: nat)
    | Save(w: nat, result: SaveResult, committed: bool)
    | Requeue(w: nat)
    | Exit(w: nat)      // the watchdog reported an error
    | Permit
    | Start
    | GiveUp            // the database could not be opened

  ghost predicate Next(l: Limits, s: State, s': State, step: Step) {
    match step
    case Submit(task) => s' == Sent(l, s, task).(submitted := s.submitted + multiset{task})
    case Deliver(task) =>
      task in s.parked && |s.queue| < l.capacity
      && s' == s.(queue := s.queue + [task], parked := s.parked - multiset{task})
    case Take(w) =>
      w < |s.workers| && s.workers[w].Free? && s.queue != []
      && s' == WithWorker(s, w, Carrying(s.queue[0])).(queue := s.queue[1..])
    case Save(w, result, committed) =>
      w < |s.workers| && s.workers[w].Carrying?
      && var task := s.workers[w].task;
         s' == WithWorker(AfterSave(s, task, result, committed), w,
                          if result == Saved then Free else Failed(task, result == Fatal))
    case Requeue(w) =>
      w < |s.workers| && s.workers[w].Failed? && s.permits > 0
      && var after := Sent(l, s, s.workers[w].task);
         s' == if s.workers[w].fatal then WithoutWorker(after, w) else WithWorker(after, w, Free)
    case Exit(w) => w < |s.workers| && s.workers[w].Free? && s.permits > 0 && s' == WithoutWorker(s, w)
    case Permit => s.permits < l.workers && s' == s.(permits := s.permits + 1, starting := s.starting + 1)
    case Start => s.starting > 0 && s' == s.(starting := s.starting - 1, workers := s.workers + [Free])
    case GiveUp => s.starting > 0 && s.permits > 0 && s' == s.(starting := s.starting - 1, permits := s.permits - 1)
  }

  // ---- conservation ----

  function One(task: Task, x: Task): nat {
    if task == x then 1 else 0
  }

  function Load(w: Worker, x: Task): nat {
    if w.Free? then 0 else One(w.task, x)
  }

  // How many workers have x in hand.
  function Carried(workers: seq<Worker>, x: Task): nat {
    if workers == [] then 0 else Load(workers[0], x) + Carried(workers[1..], x)
  }

  lemma {:induction false} CarriedSplit(a: seq<Worker>, b: seq<Worker>, x: Task)
    ensures Carried(a + b, x) == Carried(a, x) + Carried(b, x)
  {
    if a == [] {
      assert a + b == b;
    } else {
      assert (a + b)[0] == a[0] && (a + b)[1..] == a[1..] + b;
      CarriedSplit(a[1..], b, x);
    }
  }

  lemma CarriedAt(workers: seq<Worker>, w: nat, worker: Worker, x: Task)
    requires w < |workers|
    ensures Carried(workers[w := worker], x) + Load(workers[w], x) == Carried(workers, x) + Load(worker, x)
    ensures Carried(workers[..w] + workers[w + 1..], x) + Load(workers[w], x) == Carried(workers, x)
  {
    var before, after := workers[..w], workers[w + 1..];
    assert workers == before + ([workers[w]] + after);
    assert workers[w := worker] == before + ([worker] + after);
    CarriedSplit(before, [workers[w]] + after, x);
    CarriedSplit(before, [worker] + after, x);
    assert ([workers[w]] + after)[1..] == after && ([worker] + after)[1..] == after;
    CarriedSplit(before, after, x);
  }

  // Everything x can be: in a row, in the channel, in a worker's hands, waiting to be sent.
  ghost function Everywhere(s: State, x: Task): nat {
    s.rows[x] + multiset(s.queue)[x] + Carried(s.workers, x) + s.parked[x]
  }

  ghost predicate Conserved(l: Limits, s: State) {
    && (forall x :: Everywhere(s, x) == s.submitted[x] + s.doubled[x])
    && |s.queue| <= l.capacity
    && s.permits == |s.workers| + s.starting <= l.workers
  }

  lemma SentIsThere(l: Limits, s: State, task: Task, x: Task)
    ensures Everywhere(Sent(l, s, task), x) == Everywhere(s, x) + One(task, x)
    ensures |s.queue| <= l.capacity ==> |Sent(l, s, task).queue| <= l.capacity
  {
    assert multiset(s.queue + [task]) == multiset(s.queue) + multiset{task};
  }

  lemma TakeConserves(s: State, s': State, w: nat, x: Task)
    requires w < |s.workers| && s.workers[w].Free? && s.queue != []
    requires s' == WithWorker(s, w, Carrying(s.queue[0])).(queue := s.queue[1..])
    ensures Everywhere(s', x) == Everywhere(s, x)
  {
    CarriedAt(s.workers, w, Carrying(s.queue[0]), x);
    assert s.queue == [s.queue[0]] + s.queue[1..];
    assert multiset([s.queue[0]] + s.queue[1..]) == multiset{s.queue[0]} + multiset(s.queue[1..]);
  }

  lemma SaveConserves(l: Limits, s: State, s': State, w: nat, result: SaveResult, committed: bool, x: Task)
    requires Next(l, s, s', Step.Save(w, result, committed))
    ensures Everywhere(s', x) + s.doubled[x] == Everywhere(s, x) + s'.doubled[x]
    ensures s'.queue == s.queue
  {
    var task := s.workers[w].task;
    CarriedAt(s.workers, w, if result == Saved then Free else Failed(task, result == Fatal), x);
  }

  lemma RequeueConserves(l: Limits, s: State, s': State, w: nat, x: Task)
    requires Next(l, s, s', Step.Requeue(w))
    ensures Everywhere(s', x) == Everywhere(s, x) && s'.doubled == s.doubled
    ensures |s.queue| <= l.capacity ==> |s'.queue| <= l.capacity
  {
    CarriedAt(s.workers, w, Free, x);
    SentIsThere(l, s, s.workers[w].task, x);
  }

  lemma DeliverConserves(s: State, task: Task, x: Task)
    requires task in s.parked
    ensures Everywhere(s.(queue := s.queue + [task], parked := s.parked - multiset{task}), x) == Everywhere(s, x)
  {
    assert multiset(s.queue + [task]) == multiset(s.queue) + multiset{task};
  }

  // One step, for one task.
  lemma StepConserves(l: Limits, s: State, s': State, step: Step, x: Task)
    requires Next(l, s, s', step)
    ensures Everywhere(s', x) + s.submitted[x] + s.doubled[x] == Everywhere(s, x) + s'.submitted[x] + s'.doubled[x]
    ensures |s.queue| <= l.capacity ==> |s'.queue| <= l.capacity
  {
    match step
    case Submit(task) => SentIsThere(l, s, task, x);
    case Deliver(task) => DeliverConserves(s, task, x);
    case Take(w) => TakeConserves(s, s', w, x);
    case Save(w, result, committed) => SaveConserves(l, s, s', w, result, committed, x);
    case Requeue(w) => RequeueConserves(l, s, s', w, x);
    case Exit(w) => CarriedAt(s.workers, w, Free, x);
    case Permit =>
    case Start => CarriedSplit(s.workers, [Free], x);
    case GiveUp =>
  }

  lemma PermitsMatch(l: Limits, s: State, s': State, step: Step)
    requires Next(l, s, s', step) && s.permits == |s.workers| + s.starting <= l.workers
    ensures s'.permits == |s'.workers| + s'.starting <= l.workers
  {
  }

  lemma StepKeepsConserved(l: Limits, s: State, s': State, step: Step)
    requires Conserved(l, s) && Next(l, s, s', step)
    ensures Conserved(l, s')
  {
    PermitsMatch(l, s, s', step);
    forall x ensures Everywhere(s', x) == s'.submitted[x] + s'.doubled[x] && |s'.queue| <= l.capacity {
      StepConserves(l, s, s', step, x);
    }
  }

  ghost predicate StepAt(l: Limits, run: seq<State>, steps: seq<Step>, i: int)
    requires 0 <= i < |steps| && |run| == |steps| + 1
  {
    Next(l, run[i], run[i + 1], steps[i])
  }

  ghost predicate IsRun(l: Limits, run: seq<State>, steps: seq<Step>) {
    && |run| == |steps| + 1 && run[0] == Init()
    && forall i :: 0 <= i < |steps| ==> StepAt(l, run, steps, i)
  }

  // In every run, with busy and fatal errors, other steps between a failed save and its
  // requeueing, restarts and a full channel: every submitted task is in exactly one
  // place; what is committed more often is exactly what a save committed while
  // reporting an error.
  lemma {:induction false} NoTaskIsLost(l: Limits, run: seq<State>, steps: seq<Step>, i: nat)
    requires IsRun(l, run, steps) && i < |run|
    ensures Conserved(l, run[i])
  {
    if i > 0 {
      NoTaskIsLost(l, run, steps, i - 1);
      assert StepAt(l, run, steps, i - 1);
      StepKeepsConserved(l, run[i - 1], run[i], steps[i - 1]);
    }
  }

  // A save is honest when it commits exactly if it reports success.
  ghost predicate Honest(steps: seq<Step>) {
    forall i :: 0 <= i < |steps| && steps[i].Save? ==> (steps[i].committed <==> steps[i].result == Saved)
  }

  lemma {:induction false} HonestDoublesNothing(l: Limits, run: seq<State>, steps: seq<Step>, i: nat)
    requires IsRun(l, run, steps) && Honest(steps) && i < |run|
    ensures run[i].doubled == multiset{}
  {
    if i > 0 {
      HonestDoublesNothing(l, run, steps, i - 1);
      assert StepAt(l, run, steps, i - 1);
    }
  }

  // A worker alone is done with a task after these two steps.
  lemma ProcessingIsTwoSteps(l: Limits, s: State, w: nat, result: SaveResult, committed: bool) returns (mid: State, last: State)
    requires w < |s.workers| && s.workers[w].Carrying? && s.permits > 0
    ensures Next(l, s, mid, Step.Save(w, result, committed))
    ensures if result == Saved then last == mid else Next(l, mid, last, Step.Requeue(w))
    ensures var after := Processed(l, s, s.workers[w].task, result, committed);
      last == if result == Fatal then WithoutWorker(after, w) else WithWorker(after, w, Free)
  {
    var task := s.workers[w].task;
    mid := WithWorker(AfterSave(s, task, result, committed), w, if result == Saved then Free else Failed(task, result == Fatal));
    var sent := Sent(l, mid, task);
    last := if result == Saved then mid else if result == Fatal then WithoutWorker(sent, w) else WithWorker(sent, w, Free);
    var was, now := s.workers, mid.workers;
    assert now[..w] + now[w + 1..] == was[..w] + was[w + 1..] && now[w := Free] == was[w := Free];
  }

  // Nothing is under way.
  ghost predicate Quiet(s: State) {
    s.queue == [] && s.parked == multiset{} && forall w :: 0 <= w < |s.workers| ==> s.workers[w].Free?
  }

  lemma {:induction false} NobodyCarries(workers: seq<Worker>, x: Task)
    requires forall w :: 0 <= w < |workers| ==> workers[w].Free?
    ensures Carried(workers, x) == 0
  {
    if workers != [] { NobodyCarries(workers[1..], x); }
  }

  // With honest saves each task is saved at most as often as it was submitted, and
  // exactly as often once nothing is under way.
  lemma SavedAsSubmitted(l: Limits, run: seq<State>, steps: seq<Step>, i: nat)
    requires IsRun(l, run, steps) && Honest(steps) && i < |run|
    ensures run[i].rows <= run[i].submitted
    ensures Quiet(run[i]) ==> run[i].rows == run[i].submitted
  {
    NoTaskIsLost(l, run, steps, i);
    HonestDoublesNothing(l, run, steps, i);
    var s := run[i];
    forall x ensures s.rows[x] <= s.submitted[x] && (Quiet(s) ==> s.rows[x] == s.submitted[x]) {
      assert Everywhere(s, x) == s.submitted[x] + s.doubled[x];
      if Quiet(s) { NobodyCarries(s.workers, x); }
    }
  }

  // ---- the program ----

  // What the workers share: the channel, the goroutines waiting to send, the table.
  class Shared {
    const limits: Limits
    var queue: seq<Task>
    var parked: multiset<Task>
    var rows: multiset<Task>
    ghost var faults: nat  // saves that reported an error

    constructor (limits: Limits)
      ensures this.limits == limits && queue == [] && parked == rows == multiset{} && faults == 0
    {
      this.limits := limits;
      queue, parked, rows, faults := [], multiset{}, multiset{}, 0;
    }

    // SavePostDataInDB: a failing commit may have committed all the same.
    method Save(task: Task) returns (result: SaveResult, ghost committed: bool)
      modifies this`rows, this`faults
      ensures rows == if committed then old(rows) + multiset{task} else old(rows)
      ensures result == Saved ==> committed
      ensures faults == old(faults) + if result == Saved then 0 else 1
    {
      result :| true;
      var commits: bool := *;
      committed := commits || result == Saved;
      if commits || result == Saved { rows := rows + multiset{task}; }
      if result != Saved { faults := faults + 1; }
    }

    // requeueDatabaseSavePostTask
    method Requeue(task: Task)
      modifies this`queue, this`parked
      ensures queue == if |old(queue)| < limits.capacity then old(queue) + [task] else old(queue)
      ensures parked == if |old(queue)| < limits.capacity then old(parked) else old(parked) + multiset{task}
    {
      if |queue| < limits.capacity { queue := queue + [task]; } else { parked := parked + multiset{task}; }
    }

    // processDatabaseSavePostTask: only a fatal error ends the worker.
    method ProcessTask(task: Task) returns (failed: bool, ghost result: SaveResult, ghost committed: bool)
      modifies this`queue, this`parked, this`rows, this`faults
      ensures failed <==> result == Fatal
      ensures result == Saved ==> committed
      ensures faults == old(faults) <==> result == Saved
      ensures forall s: State :: s.queue == old(queue) && s.parked == old(parked) && s.rows == old(rows) ==>
        var after := Processed(limits, s, task, result, committed);
        after.queue == queue && after.parked == parked && after.rows == rows
    {
      var r;
      r, committed := Save(task);
      result := r;
      if r == Saved { return false, result, committed; }
      Requeue(task);
      failed := r == Fatal;
    }
  }
}
