/**
 * LockManager: page-granularity shared/exclusive locks. The two maps of holder
 * lists and the counter are fields updated in place; every method is proved
 * to move the lock table exactly as the corresponding LockTable function does,
 * and to keep the lock-table invariant.
 */
module LockManagers {
  import opened Common
  import opened LockTable

  /** Counts the entries of s that are tid and those that are not (grantLock's two inner loops). */
  method CountHolders(s: Holders, tid: TransactionId) returns (own: nat, other: nat)
    ensures own == Count(s, tid) && other == CountOthers(s, tid)
  {
    own, other := 0, 0;
    for i := 0 to |s|
      invariant own == Count(s[..i], tid) && other == CountOthers(s[..i], tid)
    {
      assert s[..i + 1][..i] == s[..i];
      if s[i] == tid {
        own := own + 1;
      } else {
        other := other + 1;
      }
    }
    assert s[..|s|] == s;
  }

  /** Scans s for a holder other than tid with a smaller priority key (isYield's inner loops). */
  method FindSmallerOther(s: Holders, tid: TransactionId, key: TransactionId -> int) returns (found: bool)
    ensures found == HasSmallerOther(s, tid, key)
  {
    for i := 0 to |s|
      invariant forall k :: 0 <= k < i ==> !(s[k] != tid && key(s[k]) < key(tid))
    {
      if s[i] != tid && key(s[i]) < key(tid) {
        return true;
      }
    }
    return false;
  }

  class LockManager {
    var sharedLocks: map<PageId, Holders>
    var exclusiveLocks: map<PageId, Holders>
    var num: int

    function State(): LockState
      reads this
    {
      LockState(sharedLocks, exclusiveLocks, num)
    }

    ghost predicate Valid()
      reads this
    {
      Inv(State())
    }

    constructor ()
      ensures Valid() && State() == Empty
    {
      sharedLocks := map[];
      exclusiveLocks := map[];
      num := 0;
    }

    /** addLock: bumps the counter and appends tid to pid's list for perm, creating the list if absent. */
    method AddLock(pid: PageId, tid: TransactionId, perm: Permissions)
      modifies this
      ensures State() == LockTable.AddLock(old(State()), pid, tid, perm)
    {
      num := num + 1;
      if perm == ReadOnly {
        if pid in sharedLocks {
          sharedLocks := sharedLocks[pid := sharedLocks[pid] + [tid]];
        } else {
          assert HoldersOf(sharedLocks, pid) + [tid] == [tid];
          sharedLocks := sharedLocks[pid := [tid]];
        }
      } else {
        if pid in exclusiveLocks {
          exclusiveLocks := exclusiveLocks[pid := exclusiveLocks[pid] + [tid]];
        } else {
          assert HoldersOf(exclusiveLocks, pid) + [tid] == [tid];
          exclusiveLocks := exclusiveLocks[pid := [tid]];
        }
      }
    }

    /**
     * grantLock: counts own/other shared and exclusive holders of pid, then
     * grants, grants and records, or denies. The compatibility rules this
     * implements are LockTable.SharedRequest and LockTable.ExclusiveRequest.
     */
    method GrantLock(pid: PageId, tid: TransactionId, perm: Permissions) returns (granted: bool)
      requires Valid()
      modifies this
      ensures Valid()
      ensures (granted, State()) == LockTable.GrantLock(old(State()), pid, tid, perm)
    {
      GrantPreservesInv(State(), pid, tid, perm);
      var ownS, otherS, ownE, otherE := 0, 0, 0, 0;
      if pid in sharedLocks {
        ownS, otherS := CountHolders(sharedLocks[pid], tid);
      }
      if pid in exclusiveLocks {
        ownE, otherE := CountHolders(exclusiveLocks[pid], tid);
      }
      assert Counts(ownS, ownE, otherS, otherE) == CountsFor(State(), pid, tid);
      if perm == ReadOnly {
        if ownS == 1 && otherE == 0 {
          return true;
        } else if ownS == 0 && otherE == 0 {
          AddLock(pid, tid, perm);
          return true;
        } else if otherE == 1 {
          return false;
        }
      } else {
        if ownE == 1 {
          return true;
        } else if ownE == 0 && otherE == 0 && otherS == 0 {
          AddLock(pid, tid, perm);
          return true;
        } else if otherE == 1 || otherS >= 1 {
          return false;
        }
      }
      return false;
    }

    /**
     * isYield: false while num < 100; otherwise true when some conflicting
     * holder other than tid has a smaller priority key. `key` stands for the
     * transaction ids' hash codes.
     */
    method IsYield(pid: PageId, tid: TransactionId, perm: Permissions, key: TransactionId -> int) returns (y: bool)
      ensures y == Yield(State(), pid, tid, perm, key)
    {
      if num < 100 {
        return false;
      }
      if pid in exclusiveLocks {
        y := FindSmallerOther(exclusiveLocks[pid], tid, key);
        if y {
          return true;
        }
      }
      if perm == ReadWrite && pid in sharedLocks {
        y := FindSmallerOther(sharedLocks[pid], tid, key);
        if y {
          return true;
        }
      }
      return false;
    }

    /** releaseLock: removes tid from both lists of pid, dropping a list left empty. */
    method ReleaseLock(pid: PageId, tid: TransactionId)
      requires Valid()
      modifies this
      ensures Valid()
      ensures State() == LockTable.ReleaseLock(old(State()), pid, tid)
    {
      ghost var st := State();
      if pid in sharedLocks {
        var l := RemoveFirst(sharedLocks[pid], tid);
        if l == [] {
          sharedLocks := sharedLocks - {pid};
        } else {
          sharedLocks := sharedLocks[pid := l];
        }
      }
      if pid in exclusiveLocks {
        var l := RemoveFirst(exclusiveLocks[pid], tid);
        if l == [] {
          exclusiveLocks := exclusiveLocks - {pid};
        } else {
          exclusiveLocks := exclusiveLocks[pid := l];
        }
      }
      assert State() == LockTable.ReleaseLock(st, pid, tid);
      ReleaseLockEffect(st, pid, tid);
    }

    /**
     * releaseTransaction: releaseLock on every page whose shared list holds
     * tid, then on every page whose exclusive list still holds it. The effect
     * is LockTable.ReleaseTransaction (see ReleaseTransactionEffect).
     */
    method ReleaseTransaction(tid: TransactionId)
      requires Valid()
      modifies this
      ensures Valid()
      ensures State() == LockTable.ReleaseTransaction(old(State()), tid)
    {
      ghost var st0 := State();
      ghost var released: set<PageId> := {};
      StripKeysNone(st0.shared, tid);
      StripKeysNone(st0.exclusive, tid);

      var keys := sharedLocks.Keys;
      while keys != {}
        invariant Valid() && num == st0.num
        invariant keys <= st0.shared.Keys
        invariant sharedLocks == StripKeys(st0.shared, tid, released)
        invariant exclusiveLocks == StripKeys(st0.exclusive, tid, released)
        invariant forall p :: p in keys ==> p !in released
        invariant forall p :: p in st0.shared && p !in keys && tid in st0.shared[p] ==> p in released
        decreases keys
      {
        var p :| p in keys;
        keys := keys - {p};
        if tid in sharedLocks[p] {
          StripKeysStep(st0.shared, tid, released, p);
          StripKeysStep(st0.exclusive, tid, released, p);
          ReleaseLock(p, tid);
          released := released + {p};
        }
      }

      var keys2 := exclusiveLocks.Keys;
      while keys2 != {}
        invariant Valid() && num == st0.num
        invariant keys2 <= exclusiveLocks.Keys
        invariant sharedLocks == StripKeys(st0.shared, tid, released)
        invariant exclusiveLocks == StripKeys(st0.exclusive, tid, released)
        invariant forall p :: p in st0.shared && tid in st0.shared[p] ==> p in released
        invariant forall p :: p in st0.exclusive && tid in st0.exclusive[p] && p !in released ==> p in keys2
        decreases keys2
      {
        var p :| p in keys2;
        keys2 := keys2 - {p};
        if tid in exclusiveLocks[p] {
          StripKeysStep(st0.shared, tid, released, p);
          StripKeysStep(st0.exclusive, tid, released, p);
          ReleaseLock(p, tid);
          released := released + {p};
        }
      }
      StripKeysAll(st0.shared, tid, released);
      StripKeysAll(st0.exclusive, tid, released);
    }
  }
}
