/**
 * The lock table of the LockManager as a value: per page, the list of
 * transactions holding a shared lock and the list holding an exclusive lock,
 * plus the counter of locks ever recorded. The functions here give the effect
 * of each LockManager operation; the lemmas state the compatibility rules and
 * the invariant that every operation keeps.
 */
module LockTable {
  import opened Common

  type Holders = seq<TransactionId>

  datatype LockState = LockState(
    shared: map<PageId, Holders>,
    exclusive: map<PageId, Holders>,
    num: int)

  /** The list stored for pid, or the empty list when the page has no entry. */
  function HoldersOf(m: map<PageId, Holders>, pid: PageId): Holders {
    if pid in m then m[pid] else []
  }

  /** How many entries of s are t. */
  function Count(s: Holders, t: TransactionId): nat
    decreases |s|
  {
    if s == [] then 0 else Count(s[..|s| - 1], t) + (if s[|s| - 1] == t then 1 else 0)
  }

  /** How many entries of s are some transaction other than t. */
  function CountOthers(s: Holders, t: TransactionId): nat
    decreases |s|
  {
    if s == [] then 0 else CountOthers(s[..|s| - 1], t) + (if s[|s| - 1] != t then 1 else 0)
  }

  ghost predicate NoDup(s: Holders) {
    forall i, j :: 0 <= i < j < |s| ==> s[i] != s[j]
  }

  /** Every stored list is non-empty (empty lists are removed) and has no repeats. */
  ghost predicate WellFormed(m: map<PageId, Holders>) {
    forall p :: p in m ==> m[p] != [] && NoDup(m[p])
  }

  /** t is the only transaction holding anything on page p. */
  ghost predicate Alone(st: LockState, p: PageId, t: TransactionId) {
    && (forall u :: u in HoldersOf(st.shared, p) ==> u == t)
    && (forall u :: u in HoldersOf(st.exclusive, p) ==> u == t)
  }

  /**
   * The lock-table invariant: no transaction is listed twice for a page, and an
   * exclusive holder of a page is the only transaction in either list of it.
   */
  ghost predicate Inv(st: LockState) {
    && WellFormed(st.shared)
    && WellFormed(st.exclusive)
    && forall p, t :: p in st.exclusive && t in st.exclusive[p] ==> Alone(st, p, t)
  }

  const Empty: LockState := LockState(map[], map[], 0)

  lemma EmptyInv()
    ensures Inv(Empty)
  {
  }

  // ---------------------------------------------------------------------------
  // Counting

  lemma {:induction false} CountNoDup(s: Holders, t: TransactionId)
    requires NoDup(s)
    ensures Count(s, t) == if t in s then 1 else 0
    decreases |s|
  {
    if s != [] {
      var init := s[..|s| - 1];
      CountNoDup(init, t);
      assert s == init + [s[|s| - 1]];
      assert NoDup(init);
    }
  }

  lemma {:induction false} CountOthersZero(s: Holders, t: TransactionId)
    ensures CountOthers(s, t) == 0 <==> forall u :: u in s ==> u == t
    decreases |s|
  {
    if s != [] {
      var init := s[..|s| - 1];
      CountOthersZero(init, t);
      var last := s[|s| - 1];
      assert s == init + [last];
      if forall u :: u in s ==> u == t {
        forall u | u in init ensures u == t {
          assert u in s;
        }
        assert last in s;
      } else {
        var u :| u in s && u != t;
        assert u in init || u == last;
      }
    }
  }

  lemma {:induction false} CountOthersAllSame(s: Holders, h: TransactionId, t: TransactionId)
    requires forall u :: u in s ==> u == h
    requires h != t
    ensures CountOthers(s, t) == Count(s, h)
    decreases |s|
  {
    if s != [] {
      var init := s[..|s| - 1];
      assert s == init + [s[|s| - 1]];
      forall u | u in init ensures u == h {
        assert u in s;
      }
      CountOthersAllSame(init, h, t);
      assert s[|s| - 1] in s;
    }
  }

  /** The four counts grantLock gathers for one page. */
  datatype Counts = Counts(ownS: nat, ownE: nat, otherS: nat, otherE: nat)

  function CountsFor(st: LockState, pid: PageId, tid: TransactionId): Counts {
    var s, e := HoldersOf(st.shared, pid), HoldersOf(st.exclusive, pid);
    Counts(Count(s, tid), Count(e, tid), CountOthers(s, tid), CountOthers(e, tid))
  }

  /** Under the invariant the counts are the memberships they stand for. */
  lemma CountsMeaning(st: LockState, pid: PageId, tid: TransactionId)
    requires Inv(st)
    ensures CountsFor(st, pid, tid).ownS == if tid in HoldersOf(st.shared, pid) then 1 else 0
    ensures CountsFor(st, pid, tid).ownE == if tid in HoldersOf(st.exclusive, pid) then 1 else 0
    ensures CountsFor(st, pid, tid).otherS == 0 <==> forall u :: u in HoldersOf(st.shared, pid) ==> u == tid
    ensures CountsFor(st, pid, tid).otherE == 0 <==> forall u :: u in HoldersOf(st.exclusive, pid) ==> u == tid
    ensures CountsFor(st, pid, tid).otherE <= 1
  {
    var s, e := HoldersOf(st.shared, pid), HoldersOf(st.exclusive, pid);
    CountNoDup(s, tid);
    CountNoDup(e, tid);
    CountOthersZero(s, tid);
    CountOthersZero(e, tid);
    if e != [] {
      var h := e[0];
      assert Alone(st, pid, h);
      if h != tid {
        CountOthersAllSame(e, h, tid);
        CountNoDup(e, h);
      }
    }
  }

  // ---------------------------------------------------------------------------
  // grantLock

  datatype Decision = Grant | GrantAndRecord | Deny

  /** The decision chain of grantLock over the four counts, branch by branch. */
  function Decide(c: Counts, perm: Permissions): Decision {
    if perm == ReadOnly then
      if c.ownS == 1 && c.otherE == 0 then Grant
      else if c.ownS == 0 && c.otherE == 0 then GrantAndRecord
      else if c.otherE == 1 then Deny
      else Deny
    else
      if c.ownE == 1 then Grant
      else if c.ownE == 0 && c.otherE == 0 && c.otherS == 0 then GrantAndRecord
      else if c.otherE == 1 || c.otherS >= 1 then Deny
      else Deny
  }

  /** addLock: count one more lock and append tid to the page's list for perm. */
  function AddLock(st: LockState, pid: PageId, tid: TransactionId, perm: Permissions): LockState {
    if perm == ReadOnly then
      st.(num := st.num + 1, shared := st.shared[pid := HoldersOf(st.shared, pid) + [tid]])
    else
      st.(num := st.num + 1, exclusive := st.exclusive[pid := HoldersOf(st.exclusive, pid) + [tid]])
  }

  /** grantLock: whether the lock is granted, and the lock table afterwards. */
  function GrantLock(st: LockState, pid: PageId, tid: TransactionId, perm: Permissions): (bool, LockState) {
    match Decide(CountsFor(st, pid, tid), perm)
    case Grant => (true, st)
    case GrantAndRecord => (true, AddLock(st, pid, tid, perm))
    case Deny => (false, st)
  }

  /**
   * A shared request is granted exactly when no other transaction holds an
   * exclusive lock on the page. The requester is recorded (and the counter
   * bumped) only when it was not yet a shared holder, even when it already
   * holds the exclusive lock; a denial changes nothing.
   */
  lemma {:induction false} SharedRequest(st: LockState, pid: PageId, tid: TransactionId)
    requires Inv(st)
    ensures GrantLock(st, pid, tid, ReadOnly).0 <==> forall u :: u in HoldersOf(st.exclusive, pid) ==> u == tid
    ensures GrantLock(st, pid, tid, ReadOnly).1 ==
      if GrantLock(st, pid, tid, ReadOnly).0 && tid !in HoldersOf(st.shared, pid)
      then AddLock(st, pid, tid, ReadOnly) else st
  {
    CountsMeaning(st, pid, tid);
  }

  /**
   * An exclusive request is granted unchanged to a transaction already holding
   * it; granted and recorded when no other transaction holds any lock on the
   * page (which covers the sole shared holder upgrading); denied, changing
   * nothing, when another transaction holds a shared or exclusive lock.
   */
  lemma {:induction false} ExclusiveRequest(st: LockState, pid: PageId, tid: TransactionId)
    requires Inv(st)
    ensures GrantLock(st, pid, tid, ReadWrite).0 <==>
      tid in HoldersOf(st.exclusive, pid) || Alone(st, pid, tid)
    ensures GrantLock(st, pid, tid, ReadWrite).1 ==
      if tid !in HoldersOf(st.exclusive, pid) && Alone(st, pid, tid)
      then AddLock(st, pid, tid, ReadWrite) else st
  {
    CountsMeaning(st, pid, tid);
  }

  /**
   * The counter grows by exactly one when grantLock records a new holder and
   * stays put otherwise; a recorded holder was not yet in the list for perm.
   */
  lemma GrantCounter(st: LockState, pid: PageId, tid: TransactionId, perm: Permissions)
    requires Inv(st)
    ensures var st' := GrantLock(st, pid, tid, perm).1;
      st'.num == st.num + (if st' == st then 0 else 1)
    ensures var st' := GrantLock(st, pid, tid, perm).1;
      st' != st ==>
        && GrantLock(st, pid, tid, perm).0
        && (perm == ReadOnly ==> tid !in HoldersOf(st.shared, pid) && HoldersOf(st'.shared, pid) == HoldersOf(st.shared, pid) + [tid])
        && (perm == ReadWrite ==> tid !in HoldersOf(st.exclusive, pid) && HoldersOf(st'.exclusive, pid) == [tid])
  {
    CountsMeaning(st, pid, tid);
    if perm == ReadWrite && GrantLock(st, pid, tid, perm).1 != st {
      assert HoldersOf(st.exclusive, pid) == [];
    }
  }

  lemma {:induction false} AppendNoDup(s: Holders, t: TransactionId)
    requires NoDup(s) && t !in s
    ensures NoDup(s + [t])
  {
    var s' := s + [t];
    forall i, j | 0 <= i < j < |s'| ensures s'[i] != s'[j] {
      if j == |s| {
        assert s'[i] == s[i] && s[i] in s;
      }
    }
  }

  /** Every grant decision keeps the lock-table invariant. */
  lemma {:induction false} GrantPreservesInv(st: LockState, pid: PageId, tid: TransactionId, perm: Permissions)
    requires Inv(st)
    ensures Inv(GrantLock(st, pid, tid, perm).1)
  {
    CountsMeaning(st, pid, tid);
    var st' := GrantLock(st, pid, tid, perm).1;
    if Decide(CountsFor(st, pid, tid), perm) == GrantAndRecord {
      if perm == ReadOnly {
        AppendNoDup(HoldersOf(st.shared, pid), tid);
        assert st'.exclusive == st.exclusive;
        forall p, t | p in st'.exclusive && t in st'.exclusive[p] ensures Alone(st', p, t) {
          assert Alone(st, p, t);
          if p != pid {
            assert HoldersOf(st'.shared, p) == HoldersOf(st.shared, p);
          } else {
            assert t == tid;
            var sh := HoldersOf(st.shared, pid);
            assert sh == [];
          }
        }
      } else {
        var ex := HoldersOf(st.exclusive, pid);
        assert ex == [];
        AppendNoDup([], tid);
        assert st'.shared == st.shared;
        assert HoldersOf(st'.exclusive, pid) == [tid];
        forall p, t | p in st'.exclusive && t in st'.exclusive[p] ensures Alone(st', p, t) {
          if p != pid {
            assert HoldersOf(st'.exclusive, p) == HoldersOf(st.exclusive, p);
            assert Alone(st, p, t);
          } else {
            assert t == tid;
            assert forall u :: u in HoldersOf(st.shared, pid) ==> u == tid;
          }
        }
      }
    }
  }

  // ---------------------------------------------------------------------------
  // isYield

  /** Some holder in s other than tid has a smaller priority key than tid. */
  predicate HasSmallerOther(s: Holders, tid: TransactionId, key: TransactionId -> int) {
    exists i :: 0 <= i < |s| && s[i] != tid && key(s[i]) < key(tid)
  }

  /**
   * isYield: false while fewer than 100 locks were recorded; then true when a
   * conflicting holder (an exclusive one, or for a write request also a shared
   * one) other than tid has a smaller priority key.
   */
  predicate Yield(st: LockState, pid: PageId, tid: TransactionId, perm: Permissions, key: TransactionId -> int) {
    && st.num >= 100
    && (|| HasSmallerOther(HoldersOf(st.exclusive, pid), tid, key)
        || (perm == ReadWrite && HasSmallerOther(HoldersOf(st.shared, pid), tid, key)))
  }

  // ---------------------------------------------------------------------------
  // releaseLock

  /** List.remove(Object): drop the first occurrence of t, if any. */
  function RemoveFirst(s: Holders, t: TransactionId): (r: Holders)
    ensures |r| <= |s|
  {
    if s == [] then []
    else if s[0] == t then s[1..]
    else [s[0]] + RemoveFirst(s[1..], t)
  }

  lemma {:induction false} RemoveFirstFacts(s: Holders, t: TransactionId)
    requires NoDup(s)
    ensures t !in RemoveFirst(s, t)
    ensures forall u :: u != t ==> (u in RemoveFirst(s, t) <==> u in s)
    ensures NoDup(RemoveFirst(s, t))
    ensures t !in s ==> RemoveFirst(s, t) == s
  {
    if s != [] {
      assert NoDup(s[1..]);
      RemoveFirstFacts(s[1..], t);
      if s[0] == t {
        assert t !in s[1..];
      } else {
        var r := RemoveFirst(s, t);
        assert r == [s[0]] + RemoveFirst(s[1..], t);
        assert s[0] !in s[1..];
        forall i, j | 0 <= i < j < |r| ensures r[i] != r[j] {
          if i == 0 {
            assert r[j] in RemoveFirst(s[1..], t);
          }
        }
      }
    }
  }

  /** One map of releaseLock: remove tid from pid's list and drop the entry once empty. */
  function StripPage(m: map<PageId, Holders>, pid: PageId, tid: TransactionId): map<PageId, Holders> {
    if pid in m then
      var l := RemoveFirst(m[pid], tid);
      if l == [] then m - {pid} else m[pid := l]
    else m
  }

  /** releaseLock(pid, tid) on both maps. */
  function ReleaseLock(st: LockState, pid: PageId, tid: TransactionId): LockState {
    st.(shared := StripPage(st.shared, pid, tid), exclusive := StripPage(st.exclusive, pid, tid))
  }

  lemma StripPageFacts(m: map<PageId, Holders>, pid: PageId, tid: TransactionId)
    requires WellFormed(m)
    ensures WellFormed(StripPage(m, pid, tid))
    ensures tid !in HoldersOf(StripPage(m, pid, tid), pid)
    ensures forall u :: u != tid ==> (u in HoldersOf(StripPage(m, pid, tid), pid) <==> u in HoldersOf(m, pid))
    ensures forall p :: p != pid ==> HoldersOf(StripPage(m, pid, tid), p) == HoldersOf(m, p)
    ensures forall p :: p != pid ==> (p in StripPage(m, pid, tid) <==> p in m)
    ensures StripPage(StripPage(m, pid, tid), pid, tid) == StripPage(m, pid, tid)
  {
    if pid in m {
      RemoveFirstFacts(m[pid], tid);
      var l := RemoveFirst(m[pid], tid);
      if l != [] {
        RemoveFirstFacts(l, tid);
      }
    }
  }

  /**
   * releaseLock(pid, tid): tid no longer appears in either list of pid; every
   * other transaction keeps exactly its holdings on pid; other pages are
   * untouched; the invariant holds; and a second call changes nothing.
   */
  lemma ReleaseLockEffect(st: LockState, pid: PageId, tid: TransactionId)
    requires Inv(st)
    ensures Inv(ReleaseLock(st, pid, tid))
    ensures tid !in HoldersOf(ReleaseLock(st, pid, tid).shared, pid)
    ensures tid !in HoldersOf(ReleaseLock(st, pid, tid).exclusive, pid)
    ensures forall u :: u != tid ==>
      && (u in HoldersOf(ReleaseLock(st, pid, tid).shared, pid) <==> u in HoldersOf(st.shared, pid))
      && (u in HoldersOf(ReleaseLock(st, pid, tid).exclusive, pid) <==> u in HoldersOf(st.exclusive, pid))
    ensures forall p :: p != pid ==>
      && HoldersOf(ReleaseLock(st, pid, tid).shared, p) == HoldersOf(st.shared, p)
      && HoldersOf(ReleaseLock(st, pid, tid).exclusive, p) == HoldersOf(st.exclusive, p)
    ensures ReleaseLock(st, pid, tid).num == st.num
    ensures ReleaseLock(ReleaseLock(st, pid, tid), pid, tid) == ReleaseLock(st, pid, tid)
  {
    StripPageFacts(st.shared, pid, tid);
    StripPageFacts(st.exclusive, pid, tid);
    var st' := ReleaseLock(st, pid, tid);
    forall p, t | p in st'.exclusive && t in st'.exclusive[p] ensures Alone(st', p, t) {
      if p == pid {
        assert t != tid;
        assert t in HoldersOf(st.exclusive, p);
        assert Alone(st, p, t);
      } else {
        assert Alone(st, p, t);
      }
    }
  }

  // ---------------------------------------------------------------------------
  // releaseTransaction

  /** Every list of m with tid removed; lists left empty are dropped. */
  function StripAll(m: map<PageId, Holders>, tid: TransactionId): map<PageId, Holders> {
    map p | p in m && RemoveFirst(m[p], tid) != [] :: RemoveFirst(m[p], tid)
  }

  /** releaseTransaction(tid): releaseLock on every page. */
  function ReleaseTransaction(st: LockState, tid: TransactionId): LockState {
    st.(shared := StripAll(st.shared, tid), exclusive := StripAll(st.exclusive, tid))
  }

  lemma StripAllFacts(m: map<PageId, Holders>, tid: TransactionId)
    requires WellFormed(m)
    ensures WellFormed(StripAll(m, tid))
    ensures forall p :: tid !in HoldersOf(StripAll(m, tid), p)
    ensures forall p, u :: u != tid ==> (u in HoldersOf(StripAll(m, tid), p) <==> u in HoldersOf(m, p))
  {
    forall p | p in m {
      RemoveFirstFacts(m[p], tid);
    }
  }

  /**
   * After releaseTransaction(tid), tid appears in no list of any page, every
   * other transaction holds exactly what it held before, and the invariant
   * still holds.
   */
  lemma ReleaseTransactionEffect(st: LockState, tid: TransactionId)
    requires Inv(st)
    ensures Inv(ReleaseTransaction(st, tid))
    ensures forall p ::
      tid !in HoldersOf(ReleaseTransaction(st, tid).shared, p) &&
      tid !in HoldersOf(ReleaseTransaction(st, tid).exclusive, p)
    ensures forall p, u :: u != tid ==>
      && (u in HoldersOf(ReleaseTransaction(st, tid).shared, p) <==> u in HoldersOf(st.shared, p))
      && (u in HoldersOf(ReleaseTransaction(st, tid).exclusive, p) <==> u in HoldersOf(st.exclusive, p))
    ensures ReleaseTransaction(st, tid).num == st.num
  {
    StripAllFacts(st.shared, tid);
    StripAllFacts(st.exclusive, tid);
    var st' := ReleaseTransaction(st, tid);
    forall p, t | p in st'.exclusive && t in st'.exclusive[p] ensures Alone(st', p, t) {
      assert t in HoldersOf(st'.exclusive, p);
      assert t != tid;
      assert t in HoldersOf(st.exclusive, p);
      assert Alone(st, p, t);
    }
  }

  /**
   * The maps after releaseLock has been applied to the pages in `released`
   * (releaseTransaction's loops reach this state page by page).
   */
  function StripKeys(m: map<PageId, Holders>, tid: TransactionId, released: set<PageId>): map<PageId, Holders> {
    map p | p in m && (p !in released || RemoveFirst(m[p], tid) != []) ::
      if p in released then RemoveFirst(m[p], tid) else m[p]
  }

  lemma StripKeysNone(m: map<PageId, Holders>, tid: TransactionId)
    ensures StripKeys(m, tid, {}) == m
  {
  }

  /** Releasing one more page extends the released set. */
  lemma StripKeysStep(m: map<PageId, Holders>, tid: TransactionId, released: set<PageId>, pid: PageId)
    requires WellFormed(m)
    ensures StripPage(StripKeys(m, tid, released), pid, tid) == StripKeys(m, tid, released + {pid})
  {
    var a := StripPage(StripKeys(m, tid, released), pid, tid);
    var b := StripKeys(m, tid, released + {pid});
    if pid in m {
      RemoveFirstFacts(m[pid], tid);
      RemoveFirstFacts(RemoveFirst(m[pid], tid), tid);
    }
    assert a.Keys == b.Keys;
    forall p | p in a ensures a[p] == b[p] {
    }
  }

  /** Once every page listing tid is released, the result is releaseTransaction's. */
  lemma StripKeysAll(m: map<PageId, Holders>, tid: TransactionId, released: set<PageId>)
    requires WellFormed(m)
    requires forall p :: p in m && tid in m[p] ==> p in released
    ensures StripKeys(m, tid, released) == StripAll(m, tid)
  {
    var a := StripKeys(m, tid, released);
    var b := StripAll(m, tid);
    forall p | p in m {
      RemoveFirstFacts(m[p], tid);
    }
    assert a.Keys == b.Keys;
  }
}
