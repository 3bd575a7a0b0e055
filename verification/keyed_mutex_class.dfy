// keyedMutex itself: its map, its lock objects, and the stretches of code that
// run without interruption, each tied to the protocol step it performs.

module KeyedMutexClass {
  import opened KeyedMutexProtocol

  class KeyedLock {
    ghost const id: LockId
    var refs: int
    var locked: bool

    constructor (ghost id: LockId)
      ensures this.id == id && refs == 0 && !locked
    {
      this.id := id;
      refs := 0;
      locked := false;
    }

    // lock.mu.Lock() returning: the mutex was free at that moment.
    method Lock()
      requires !locked
      modifies this`locked
      ensures locked
    {
      locked := true;
    }

    // lock.mu.Unlock()
    method Unlock()
      requires locked
      modifies this`locked
      ensures !locked
    {
      locked := false;
    }
  }

  class KeyedMutex {
    var locks: map<Key, KeyedLock>
    ghost var all: seq<KeyedLock>  // every lock object ever made, by id

    constructor ()
      ensures Valid() && locks == map[] && all == []
    {
      locks := map[];
      all := [];
    }

    ghost predicate Valid()
      reads this
    {
      && (forall i :: 0 <= i < |all| ==> all[i].id == i)
      && (forall key :: key in locks ==> locks[key] in all)
    }

    // The map and the objects as the protocol sees them.
    ghost function Locks(): map<Key, LockId>
      reads this
    {
      map key | key in locks :: locks[key].id
    }

    ghost function Objects(): seq<KeyedMutexProtocol.Lock>
      reads this, all
    {
      seq(|all|, i requires 0 <= i < |all| reads this, all => KeyedMutexProtocol.Lock(all[i].refs, all[i].locked))
    }

    // The protocol state these objects stand for, given where the goroutines are.
    ghost function Abs(threads: seq<PC>): State
      reads this, all
    {
      State(Locks(), Objects(), threads)
    }

    // Count the caller in on a lock that exists.
    method Retain(lock: KeyedLock)
      requires Valid() && lock in all
      modifies lock`refs
      ensures Valid()
      ensures Objects() == old(Objects())[lock.id := old(Objects()[lock.id]).(refs := old(lock.refs) + 1)]
    {
      assert all[lock.id] == lock;
      lock.refs := lock.refs + 1;
    }

    // Make a lock for a key that has none.
    method Add(key: Key) returns (lock: KeyedLock)
      requires Valid() && key !in locks
      modifies this
      ensures Valid() && lock in all && locks == old(locks)[key := lock] && lock.id == |old(all)|
      ensures Objects() == old(Objects()) + [KeyedMutexProtocol.Lock(1, false)]
    {
      lock := new KeyedLock(|all|);
      lock.refs := 1;
      locks := locks[key := lock];
      all := all + [lock];
    }

    // The first section of lock: find or make the lock, count the caller in.
    method Register(key: Key, ghost threads: seq<PC>, ghost t: nat) returns (lock: KeyedLock)
      requires Valid() && t < |threads| && threads[t].Idle?
      modifies this, locks.Values`refs
      ensures Valid() && lock in all && key in locks && locks[key] == lock
      ensures RegisterStep(old(Abs(threads)), Abs(threads[t := Registered(key, lock.id)]), t, key)
    {
      if key in locks {
        lock := locks[key];
        Retain(lock);
      } else {
        lock := Add(key);
        assert Locks() == old(Locks())[key := lock.id];
      }
    }

    // The wait for the per-key mutex, at the moment it succeeds.
    method LockMutex(lock: KeyedLock, ghost threads: seq<PC>, ghost t: nat)
      requires Valid() && lock in all && !lock.locked
      requires t < |threads| && threads[t].Registered? && threads[t].id == lock.id
      modifies lock`locked
      ensures Valid()
      ensures LockStep(old(Abs(threads)), Abs(threads[t := Holding(threads[t].key, lock.id)]), t)
    {
      assert all[lock.id] == lock;
      lock.Lock();
      assert Objects() == SetLocked(old(Abs(threads)), lock.id, true).objects;
    }

    // The returned function, first half.
    method UnlockMutex(lock: KeyedLock, ghost threads: seq<PC>, ghost t: nat)
      requires Valid() && lock in all && lock.locked
      requires t < |threads| && threads[t].Holding? && threads[t].id == lock.id
      modifies lock`locked
      ensures Valid()
      ensures UnlockStep(old(Abs(threads)), Abs(threads[t := Released(threads[t].key, lock.id)]), t)
    {
      assert all[lock.id] == lock;
      lock.Unlock();
      assert Objects() == SetLocked(old(Abs(threads)), lock.id, false).objects;
    }

    // The returned function, second half: count the caller out, and forget the
    // lock when it was the last.
    method Unregister(key: Key, lock: KeyedLock, ghost threads: seq<PC>, ghost t: nat)
      requires Valid() && lock in all
      requires t < |threads| && threads[t] == Released(key, lock.id)
      modifies this`locks, lock`refs
      ensures Valid()
      ensures UnregisterStep(old(Abs(threads)), Abs(threads[t := Idle]), t)
    {
      assert all[lock.id] == lock;
      lock.refs := lock.refs - 1;
      if lock.refs == 0 {
        locks := locks - {key};
      }
      assert Abs(threads[t := Idle]) == KeyedMutexProtocol.Unregister(old(Abs(threads)), t);
    }
  }
}
