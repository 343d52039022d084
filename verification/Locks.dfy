/** Object locks (crates/galleonfs/src/transaction.rs): acquiring is a step that is enabled or not. */
module ObjectLocks {
  datatype LockType = Shared | Exclusive

  datatype LockInfo = LockInfo(transaction: nat, lockType: LockType)

  type Locks = map<nat, seq<LockInfo>>

  datatype Step =
    | Attempt(item: nat, transaction: nat, lockType: LockType)
    | Release(item: nat, transaction: nat)

  function Held(s: Locks, item: nat): (r: seq<LockInfo>) {
    if item in s then s[item] else []
  }

  predicate AllShared(held: seq<LockInfo>) {
    forall i :: 0 <= i < |held| ==> held[i].lockType.Shared?
  }

  /** can_acquire_lock. */
  predicate CanAcquire(held: seq<LockInfo>, lockType: LockType) {
    held == [] || (lockType.Shared? && AllShared(held))
  }

  /** retain: the locks of the other transactions, in order. */
  function Others(held: seq<LockInfo>, transaction: nat): (r: seq<LockInfo>)
    ensures forall l :: l in r <==> l in held && l.transaction != transaction
    ensures |r| <= |held|
  {
    if held == [] then []
    else
      var n := |held| - 1;
      Others(held[..n], transaction) + if held[n].transaction != transaction then [held[n]] else []
  }

  function Next(s: Locks, step: Step): (r: Locks) {
    match step
    case Attempt(item, transaction, lockType) =>
      var held := Held(s, item);
      s[item := held + if CanAcquire(held, lockType) then [LockInfo(transaction, lockType)] else []]
    case Release(item, transaction) =>
      if item !in s then s
      else
        var kept := Others(s[item], transaction);
        if kept == [] then s - {item} else s[item := kept]
  }

  function Run(steps: seq<Step>): (s: Locks) {
    if steps == [] then map[] else Next(Run(steps[..|steps| - 1]), steps[|steps| - 1])
  }

  // ---------------------------------------------------------------------
  // Safety over every run

  /** Whoever holds an exclusive lock holds the only lock, and no entry is left empty. */
  predicate Safe(held: seq<LockInfo>) {
    held != [] && (AllShared(held) || |held| == 1)
  }

  ghost predicate AllSafe(s: Locks) {
    forall item :: item in s ==> Safe(s[item])
  }

  lemma NextSafe(s: Locks, step: Step)
    requires AllSafe(s)
    ensures AllSafe(Next(s, step))
  {
  }

  lemma {:induction false} RunSafe(steps: seq<Step>)
    ensures AllSafe(Run(steps))
    decreases |steps|
  {
    hide AllSafe;
    if steps == [] {
      NoneSafe();
    } else {
      RunSafe(steps[..|steps| - 1]);
      NextSafe(Run(steps[..|steps| - 1]), steps[|steps| - 1]);
    }
  }

  lemma NoneSafe()
    ensures AllSafe(map[])
  {
  }

  /** In every run, two locks on one object are both shared. */
  lemma NoConflict(steps: seq<Step>, item: nat, i: nat, j: nat)
    requires i < j < |Held(Run(steps), item)|
    ensures Held(Run(steps), item)[i].lockType.Shared? && Held(Run(steps), item)[j].lockType.Shared?
  {
    RunSafe(steps);
    assert Safe(Run(steps)[item]);
  }

  /** Step `i` of a run asks for a lock, is granted it, and the transaction does not release the object later. */
  predicate GrantedAt(steps: seq<Step>, item: nat, lock: LockInfo, i: nat) {
    && i < |steps|
    && steps[i] == Attempt(item, lock.transaction, lock.lockType)
    && CanAcquire(Held(Run(steps[..i]), item), lock.lockType)
    && forall j :: i < j < |steps| ==> steps[j] != Release(item, lock.transaction)
  }

  lemma GrantedPrefix(steps: seq<Step>, item: nat, lock: LockInfo, i: nat)
    requires i + 1 < |steps| && steps[|steps| - 1] != Release(item, lock.transaction)
    ensures GrantedAt(steps, item, lock, i) <==> GrantedAt(steps[..|steps| - 1], item, lock, i)
  {
    hide Run, CanAcquire, Held;
    var before := steps[..|steps| - 1];
    assert before[..i] == steps[..i];
    assert forall j :: i < j < |before| ==> before[j] == steps[j];
    assert steps[|steps| - 1] != Release(item, lock.transaction);
    if GrantedAt(before, item, lock, i) {
      forall j | i < j < |steps|
        ensures steps[j] != Release(item, lock.transaction)
      {
        if j < |before| {
          assert before[j] == steps[j];
        }
      }
    }
  }

  lemma StepHolds(s: Locks, step: Step, item: nat, lock: LockInfo)
    ensures lock in Held(Next(s, step), item) <==>
              || (lock in Held(s, item) && step != Release(item, lock.transaction))
              || (step == Attempt(item, lock.transaction, lock.lockType) && CanAcquire(Held(s, item), lock.lockType))
  {
  }

  /** A lock is held after a run exactly when some attempt was granted it and no release came after. */
  lemma {:induction false} HoldsExactly(steps: seq<Step>, item: nat, lock: LockInfo)
    ensures lock in Held(Run(steps), item) <==> exists i :: GrantedAt(steps, item, lock, i)
    decreases |steps|
  {
    hide CanAcquire, Held, GrantedAt;
    if steps == [] {
      NothingHeld(item, lock);
    } else {
      var n := |steps| - 1;
      var before, last := steps[..n], steps[n];
      HoldsExactly(before, item, lock);
      StepHolds(Run(before), last, item, lock);
      LastGranted(steps, item, lock);
      if last != Release(item, lock.transaction) {
        if i: nat :| GrantedAt(before, item, lock, i) {
          GrantedBounds(before, item, lock, i);
          GrantedPrefix(steps, item, lock, i);
        }
        if i: nat :| GrantedAt(steps, item, lock, i) {
          GrantedBounds(steps, item, lock, i);
          if i < n {
            GrantedPrefix(steps, item, lock, i);
          }
        }
      } else if i: nat :| GrantedAt(steps, item, lock, i) {
        ReleasedLast(steps, item, lock, i);
      }
    }
  }

  lemma NothingHeld(item: nat, lock: LockInfo)
    ensures lock !in Held(Run([]), item)
    ensures forall i :: !GrantedAt([], item, lock, i)
  {
  }

  lemma GrantedBounds(steps: seq<Step>, item: nat, lock: LockInfo, i: nat)
    requires GrantedAt(steps, item, lock, i)
    ensures i < |steps|
  {
  }

  lemma LastGranted(steps: seq<Step>, item: nat, lock: LockInfo)
    requires steps != []
    ensures var n := |steps| - 1;
            GrantedAt(steps, item, lock, n) <==>
              steps[n] == Attempt(item, lock.transaction, lock.lockType)
              && CanAcquire(Held(Run(steps[..n]), item), lock.lockType)
  {
  }

  lemma ReleasedLast(steps: seq<Step>, item: nat, lock: LockInfo, i: nat)
    requires steps != [] && steps[|steps| - 1] == Release(item, lock.transaction)
    ensures !GrantedAt(steps, item, lock, i)
  {
    hide Run, CanAcquire, Held;
  }

  // ---------------------------------------------------------------------
  // The locks held, from the history of calls alone

  /** Some attempt of the history was granted the lock, and the transaction did not release the object since. */
  ghost predicate Holder(steps: seq<Step>, item: nat, lock: LockInfo)
    decreases |steps|, 1
  {
    exists i :: 0 <= i < |steps| && Granted(steps, item, lock, i)
  }

  /** An attempt is granted when nobody holds the object, or when it and every lock held are shared. */
  ghost predicate Granted(steps: seq<Step>, item: nat, lock: LockInfo, i: nat)
    requires i < |steps|
    decreases |steps|, 0
  {
    && steps[i] == Attempt(item, lock.transaction, lock.lockType)
    && (forall other :: Holder(steps[..i], item, other) ==> lock.lockType.Shared? && other.lockType.Shared?)
    && forall j :: i < j < |steps| ==> steps[j] != Release(item, lock.transaction)
  }

  lemma GrantedAlike(steps: seq<Step>, item: nat, lock: LockInfo, i: nat)
    requires i < |steps|
    requires forall other :: other in Held(Run(steps[..i]), item) <==> Holder(steps[..i], item, other)
    ensures GrantedAt(steps, item, lock, i) <==> Granted(steps, item, lock, i)
  {
    hide Run, Holder;
    var held := Held(Run(steps[..i]), item);
    if CanAcquire(held, lock.lockType) {
      forall other | Holder(steps[..i], item, other)
        ensures lock.lockType.Shared? && other.lockType.Shared?
      {
        assert other in held;
      }
    } else {
      assert held[0] in held;
      if lock.lockType.Shared? {
        var k :| 0 <= k < |held| && !held[k].lockType.Shared?;
        assert Holder(steps[..i], item, held[k]);
      } else {
        assert Holder(steps[..i], item, held[0]);
      }
    }
  }

  /**
   Theorem: in every run a lock is held exactly when, by the history of calls, an
   attempt was made for it while nobody held the object, or while it and all
   locks held on the object were shared, and no release by its transaction came
   after.
   */
  lemma {:induction false} HeldByHistory(steps: seq<Step>, item: nat, lock: LockInfo)
    ensures lock in Held(Run(steps), item) <==> Holder(steps, item, lock)
    decreases |steps|
  {
    hide Run, Held, CanAcquire, GrantedAt, Granted;
    HoldsExactly(steps, item, lock);
    forall i | 0 <= i < |steps|
      ensures GrantedAt(steps, item, lock, i) <==> Granted(steps, item, lock, i)
    {
      forall other: LockInfo
        ensures other in Held(Run(steps[..i]), item) <==> Holder(steps[..i], item, other)
      {
        HeldByHistory(steps[..i], item, other);
      }
      GrantedAlike(steps, item, lock, i);
    }
    forall i: nat | GrantedAt(steps, item, lock, i)
      ensures i < |steps|
    {
      GrantedBounds(steps, item, lock, i);
    }
  }

  // ---------------------------------------------------------------------
  // The manager

  class LockManager {
    var locks: Locks

    constructor ()
      ensures locks == Run([])
    {
      locks := map[];
    }

    /** The scan of can_acquire_lock. */
    method CanAcquireLock(held: seq<LockInfo>, lockType: LockType) returns (b: bool)
      ensures b == CanAcquire(held, lockType)
    {
      if held == [] {
        return true;
      }
      if lockType.Exclusive? {
        return false;
      }
      for i := 0 to |held|
        invariant forall k :: 0 <= k < i ==> held[k].lockType.Shared?
      {
        if held[i].lockType.Exclusive? {
          return false;
        }
      }
      return true;
    }

    /** One turn of the waiting loop of acquire_lock. */
    method TryAcquire(item: nat, transaction: nat, lockType: LockType) returns (granted: bool)
      modifies this
      ensures locks == Next(old(locks), Attempt(item, transaction, lockType))
      ensures granted <==> CanAcquire(Held(old(locks), item), lockType)
    {
      hide CanAcquire;
      var held := Held(locks, item);
      locks := locks[item := held];
      granted := CanAcquireLock(held, lockType);
      assert held + [] == held;
      if granted {
        locks := locks[item := held + [LockInfo(transaction, lockType)]];
      }
    }

    method ReleaseLock(item: nat, transaction: nat)
      modifies this
      ensures locks == Next(old(locks), Release(item, transaction))
    {
      if item in locks {
        var held := locks[item];
        var kept: seq<LockInfo> := [];
        for i := 0 to |held|
          invariant locks == old(locks) && kept == Others(held[..i], transaction)
        {
          assert held[..i + 1][..i] == held[..i];
          if held[i].transaction != transaction {
            kept := kept + [held[i]];
          }
        }
        assert held[..|held|] == held;
        locks := if kept == [] then locks - {item} else locks[item := kept];
      }
    }
  }
}
