// Reference-counted locks per key.  Every step below is one stretch of code that
// runs without interruption: the two sections under the map's own mutex, and the
// lock and unlock of a per-key mutex.  Between any two of them other goroutines
// run, so the two gaps (registered but not yet locked, unlocked but not yet
// deregistered) are states of their own.

module KeyedMutexProtocol {

  type Key = string
  type LockId = nat

  // A keyedLock: how many goroutines hold a pointer to it, and its mutex.
  datatype Lock = Lock(refs: int, locked: bool)

  datatype PC =
    | Idle
    | Registered(key: Key, id: LockId)  // counted in, waiting for the mutex
    | Holding(key: Key, id: LockId)
    | Released(key: Key, id: LockId)    // mutex given back, still counted

  // `locks` is the map; `objects` are all lock objects ever allocated, deleted
  // ones included, since a goroutine may still point to them.
  datatype State = State(locks: map<Key, LockId>, objects: seq<Lock>, threads: seq<PC>)

  function Init(n: nat): State {
    State(map[], [], seq(n, _ => Idle))
  }

  // ---- the steps of goroutine t ----

  predicate Refers(pc: PC, id: LockId) {
    !pc.Idle? && pc.id == id
  }

  function Register(s: State, t: nat, key: Key): State
    requires t < |s.threads| && (key in s.locks ==> s.locks[key] < |s.objects|)
  {
    if key in s.locks then
      var id := s.locks[key];
      s.(objects := s.objects[id := s.objects[id].(refs := s.objects[id].refs + 1)],
         threads := s.threads[t := Registered(key, id)])
    else
      var id := |s.objects|;
      State(s.locks[key := id], s.objects + [Lock(1, false)], s.threads[t := Registered(key, id)])
  }

  function SetLocked(s: State, id: LockId, locked: bool): State
    requires id < |s.objects|
  {
    s.(objects := s.objects[id := s.objects[id].(locked := locked)])
  }

  function Unregister(s: State, t: nat): State
    requires t < |s.threads| && s.threads[t].Released? && s.threads[t].id < |s.objects|
  {
    var Released(key, id) := s.threads[t];
    var refs := s.objects[id].refs - 1;
    State(if refs == 0 then s.locks - {key} else s.locks,
          s.objects[id := s.objects[id].(refs := refs)],
          s.threads[t := Idle])
  }

  ghost predicate RegisterStep(s: State, s': State, t: nat, key: Key) {
    && t < |s.threads| && s.threads[t].Idle?
    && (key in s.locks ==> s.locks[key] < |s.objects|)
    && s' == Register(s, t, key)
  }

  ghost predicate LockStep(s: State, s': State, t: nat) {
    && t < |s.threads| && s.threads[t].Registered? && s.threads[t].id < |s.objects|
    && !s.objects[s.threads[t].id].locked
    && var pc := s.threads[t];
       s' == SetLocked(s, pc.id, true).(threads := s.threads[t := Holding(pc.key, pc.id)])
  }

  ghost predicate UnlockStep(s: State, s': State, t: nat) {
    && t < |s.threads| && s.threads[t].Holding? && s.threads[t].id < |s.objects|
    && var pc := s.threads[t];
       s' == SetLocked(s, pc.id, false).(threads := s.threads[t := Released(pc.key, pc.id)])
  }

  ghost predicate UnregisterStep(s: State, s': State, t: nat) {
    && t < |s.threads| && s.threads[t].Released? && s.threads[t].id < |s.objects|
    && s' == Unregister(s, t)
  }

  ghost predicate Next(s: State, s': State, t: nat) {
    || (exists key :: RegisterStep(s, s', t, key))
    || LockStep(s, s', t) || UnlockStep(s, s', t) || UnregisterStep(s, s', t)
  }

  // ---- counting the goroutines that point to a lock ----

  function Count(threads: seq<PC>, id: LockId): nat {
    if threads == [] then 0
    else Count(threads[..|threads| - 1], id) + if Refers(threads[|threads| - 1], id) then 1 else 0
  }

  lemma {:induction false} CountUpdate(threads: seq<PC>, t: nat, pc: PC, id: LockId)
    requires t < |threads|
    ensures Count(threads[t := pc], id)
      == Count(threads, id) - (if Refers(threads[t], id) then 1 else 0) + (if Refers(pc, id) then 1 else 0)
  {
    var n := |threads| - 1;
    if t < n {
      assert threads[t := pc][..n] == threads[..n][t := pc];
      CountUpdate(threads[..n], t, pc, id);
    } else {
      assert threads[t := pc][..n] == threads[..n];
    }
  }

  lemma {:induction false} CountZero(threads: seq<PC>, id: LockId)
    ensures Count(threads, id) == 0 <==> forall t :: 0 <= t < |threads| ==> !Refers(threads[t], id)
  {
    if threads != [] {
      CountZero(threads[..|threads| - 1], id);
    }
  }

  // ---- the invariant ----

  // Every goroutine in the protocol points to the lock its key maps to now.
  ghost predicate PointersCurrent(s: State) {
    forall t :: 0 <= t < |s.threads| && !s.threads[t].Idle? ==>
      var pc := s.threads[t];
      pc.id < |s.objects| && pc.key in s.locks && s.locks[pc.key] == pc.id
  }

  ghost predicate CountsExact(s: State) {
    forall id :: 0 <= id < |s.objects| ==> s.objects[id].refs == Count(s.threads, id)
  }

  // Mapped locks are in use, and no lock is mapped twice.
  ghost predicate MapSound(s: State) {
    && (forall key :: key in s.locks ==> s.locks[key] < |s.objects| && s.objects[s.locks[key]].refs > 0)
    && (forall k1, k2 :: k1 in s.locks && k2 in s.locks && s.locks[k1] == s.locks[k2] ==> k1 == k2)
  }

  ghost predicate HeldBy(s: State, id: LockId, t: nat) {
    t < |s.threads| && s.threads[t].Holding? && s.threads[t].id == id
  }

  // A mutex is locked when, and only when, exactly one goroutine holds it.
  ghost predicate HoldersMatch(s: State) {
    && (forall id: LockId, t: nat :: HeldBy(s, id, t) ==> id < |s.objects| && s.objects[id].locked)
    && (forall id :: 0 <= id < |s.objects| && s.objects[id].locked ==> exists t: nat :: HeldBy(s, id, t))
    && (forall id: LockId, t1: nat, t2: nat :: HeldBy(s, id, t1) && HeldBy(s, id, t2) ==> t1 == t2)
  }

  ghost predicate Inv(s: State) {
    PointersCurrent(s) && CountsExact(s) && MapSound(s) && HoldersMatch(s)
  }

  lemma InitInv(n: nat)
    ensures Inv(Init(n))
  {
  }

  // The counts of a step that moves goroutine t and adds `change` to one refs field.
  lemma CountsStayExact(s: State, s': State, t: nat, id: LockId)
    requires CountsExact(s) && t < |s.threads| == |s'.threads| && s'.threads == s.threads[t := s'.threads[t]]
    requires id < |s'.objects| && |s.objects| <= |s'.objects|
    requires forall i :: 0 <= i < |s'.objects| && i != id ==> i < |s.objects| && s'.objects[i].refs == s.objects[i].refs
    requires forall i :: 0 <= i && i != id ==> !Refers(s.threads[t], i) && !Refers(s'.threads[t], i)
    requires s'.objects[id].refs == Count(s.threads, id)
      - (if Refers(s.threads[t], id) then 1 else 0) + (if Refers(s'.threads[t], id) then 1 else 0)
    ensures CountsExact(s')
  {
    forall i | 0 <= i < |s'.objects| ensures s'.objects[i].refs == Count(s'.threads, i) {
      CountUpdate(s.threads, t, s'.threads[t], i);
    }
  }

  // Moving a goroutine that neither was nor becomes a holder leaves holding alone.
  lemma HoldersStay(s: State, s': State, t: nat)
    requires HoldersMatch(s) && t < |s.threads| == |s'.threads| && s'.threads == s.threads[t := s'.threads[t]]
    requires !s.threads[t].Holding? && !s'.threads[t].Holding? && |s.objects| <= |s'.objects|
    requires forall i :: 0 <= i < |s.objects| ==> s'.objects[i].locked == s.objects[i].locked
    requires forall i :: |s.objects| <= i < |s'.objects| ==> !s'.objects[i].locked
    ensures HoldersMatch(s')
  {
    assert forall id: LockId, u: nat :: HeldBy(s', id, u) <==> HeldBy(s, id, u);
  }

  lemma RegisterKeepsInv(s: State, s': State, t: nat, key: Key)
    requires Inv(s) && RegisterStep(s, s', t, key)
    ensures Inv(s')
  {
    var id := s'.threads[t].id;
    if key !in s.locks {
      forall u | 0 <= u < |s.threads| ensures !Refers(s.threads[u], id) {
      }
      CountZero(s.threads, id);
    }
    CountsStayExact(s, s', t, id);
    HoldersStay(s, s', t);
  }

  lemma LockKeepsInv(s: State, s': State, t: nat)
    requires Inv(s) && LockStep(s, s', t)
    ensures Inv(s')
  {
    var id := s.threads[t].id;
    CountsStayExact(s, s', t, id);
    assert HeldBy(s', id, t);
    assert forall i: LockId, u: nat :: u != t ==> (HeldBy(s', i, u) <==> HeldBy(s, i, u));
  }

  lemma UnlockKeepsInv(s: State, s': State, t: nat)
    requires Inv(s) && UnlockStep(s, s', t)
    ensures Inv(s')
  {
    var id := s.threads[t].id;
    CountsStayExact(s, s', t, id);
    assert HeldBy(s, id, t);
    assert forall i: LockId, u: nat :: u != t ==> (HeldBy(s', i, u) <==> HeldBy(s, i, u));
  }

  lemma UnregisterCounts(s: State, s': State, t: nat)
    requires Inv(s) && UnregisterStep(s, s', t)
    ensures CountsExact(s')
    ensures s'.objects[s.threads[t].id].refs == 0 ==>
      forall u :: 0 <= u < |s'.threads| ==> !Refers(s'.threads[u], s.threads[t].id)
  {
    CountsStayExact(s, s', t, s.threads[t].id);
    CountZero(s'.threads, s.threads[t].id);
  }

  // The map entry that goes is the goroutine's own lock, and nobody points to it.
  lemma DeletesOnlyUnreferenced(s: State, s': State, t: nat)
    requires Inv(s) && UnregisterStep(s, s', t) && s'.locks != s.locks
    ensures s.locks[s.threads[t].key] == s.threads[t].id
    ensures s'.locks == s.locks - {s.threads[t].key}
    ensures forall u :: 0 <= u < |s'.threads| ==> !Refers(s'.threads[u], s.threads[t].id)
  {
    UnregisterCounts(s, s', t);
  }

  lemma UnregisterKeepsInv(s: State, s': State, t: nat)
    requires Inv(s) && UnregisterStep(s, s', t)
    ensures Inv(s')
  {
    UnregisterCounts(s, s', t);
    HoldersStay(s, s', t);
    var id := s.threads[t].id;
    assert PointersCurrent(s') by {
      forall u | 0 <= u < |s'.threads| && !s'.threads[u].Idle?
        ensures s'.threads[u].key in s'.locks && s'.locks[s'.threads[u].key] == s'.threads[u].id
      {
        assert s'.threads[u] == s.threads[u];
        assert s'.threads[u].key == s.threads[t].key ==> Refers(s'.threads[u], id);
      }
    }
    assert MapSound(s') by {
      CountZero(s'.threads, id);
    }
  }

  lemma NextKeepsInv(s: State, s': State, t: nat)
    requires Inv(s) && Next(s, s', t)
    ensures Inv(s')
  {
    if LockStep(s, s', t) {
      LockKeepsInv(s, s', t);
    } else if UnlockStep(s, s', t) {
      UnlockKeepsInv(s, s', t);
    } else if UnregisterStep(s, s', t) {
      UnregisterKeepsInv(s, s', t);
    } else {
      var key :| RegisterStep(s, s', t, key);
      RegisterKeepsInv(s, s', t, key);
    }
  }

  // ---- what every run guarantees ----

  ghost predicate SomeStep(s: State, s': State) {
    exists t :: Next(s, s', t)
  }

  // Any interleaving of the steps of n goroutines.
  ghost predicate IsRun(states: seq<State>, n: nat) {
    states != [] && states[0] == Init(n) && forall i :: 0 < i < |states| ==> SomeStep(states[i - 1], states[i])
  }

  lemma {:induction false} RunKeepsInv(states: seq<State>, n: nat, i: nat)
    requires IsRun(states, n) && i < |states|
    ensures Inv(states[i])
    decreases i
  {
    if i == 0 {
      InitInv(n);
    } else {
      RunKeepsInv(states, n, i - 1);
      var t :| Next(states[i - 1], states[i], t);
      NextKeepsInv(states[i - 1], states[i], t);
    }
  }

  ghost predicate Active(s: State, t: nat) {
    t < |s.threads| && !s.threads[t].Idle?
  }

  ghost predicate HoldsKey(s: State, t: nat, key: Key) {
    t < |s.threads| && s.threads[t].Holding? && s.threads[t].key == key
  }

  // The promises of the keyed mutex, in every state of every run: one holder per
  // key, exact counts, one live lock per key, and nothing left once all are done.
  lemma KeyedMutexIsSafe(states: seq<State>, n: nat, i: nat)
    requires IsRun(states, n) && i < |states|
    ensures forall key, t1: nat, t2: nat :: HoldsKey(states[i], t1, key) && HoldsKey(states[i], t2, key) ==> t1 == t2
    ensures forall id :: 0 <= id < |states[i].objects| ==> states[i].objects[id].refs == Count(states[i].threads, id)
    ensures forall t1: nat, t2: nat :: Active(states[i], t1) && Active(states[i], t2) ==>
      (states[i].threads[t1].key == states[i].threads[t2].key <==> states[i].threads[t1].id == states[i].threads[t2].id)
    ensures (forall t: nat :: !Active(states[i], t)) ==> states[i].locks == map[]
  {
    RunKeepsInv(states, n, i);
    var s := states[i];
    forall key, t1: nat, t2: nat | HoldsKey(s, t1, key) && HoldsKey(s, t2, key) ensures t1 == t2 {
      assert HeldBy(s, s.locks[key], t1) && HeldBy(s, s.locks[key], t2);
    }
    forall key | key in s.locks ensures exists t: nat :: Active(s, t) {
      CountZero(s.threads, s.locks[key]);
      var t :| 0 <= t < |s.threads| && Refers(s.threads[t], s.locks[key]);
      assert Active(s, t);
    }
  }

  // No run gets stuck: while someone is in the protocol, someone can step.
  lemma SomeoneCanStep(s: State, t: nat) returns (s': State, u: nat)
    requires Inv(s) && Active(s, t)
    ensures Active(s, u) && Next(s, s', u)
  {
    var id := s.threads[t].id;
    assert s.threads[t].Holding? ==> HeldBy(s, id, t);
    if s.threads[t].Released? {
      s', u := Unregister(s, t), t;
    } else if s.objects[id].locked {
      u :| HeldBy(s, id, u);
      s' := SetLocked(s, id, false).(threads := s.threads[u := Released(s.threads[u].key, id)]);
    } else {
      u := t;
      s' := SetLocked(s, id, true).(threads := s.threads[u := Holding(s.threads[u].key, id)]);
    }
  }
}
