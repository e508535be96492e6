/**
 * BufferPool: a bounded cache of pages in front of the disk, gated by the lock
 * manager. The cache map and the disk are fields updated in place; each
 * method is proved against the PageCache function or predicate that gives its
 * effect.
 */
module BufferPools {
  import opened Common
  import opened PageCache
  import LockTable
  import opened LockManagers

  /** markDirty(true, tid) on every page of a list. */
  function MarkAll(ps: seq<Page>, tid: TransactionId): (ms: seq<Page>)
    ensures |ms| == |ps|
    ensures forall i :: 0 <= i < |ps| ==> ms[i] == MarkDirty(ps[i], tid)
  {
    seq(|ps|, i requires 0 <= i < |ps| => MarkDirty(ps[i], tid))
  }

  class BufferPool {
    const numPages: int
    var pages: Cache
    var disk: Disk
    const lockManager: LockManager

    ghost predicate Valid()
      reads this, lockManager
    {
      Keyed(pages) && lockManager.Valid()
    }

    /** BufferPool(numPages): an empty cache of the given capacity over the given disk. */
    constructor (numPages: int, disk: Disk)
      ensures Valid() && fresh(lockManager)
      ensures this.numPages == numPages && pages == map[] && this.disk == disk
      ensures lockManager.State() == LockTable.Empty
    {
      this.numPages := numPages;
      this.pages := map[];
      this.disk := disk;
      this.lockManager := new LockManager();
    }

    /** The eviction scan: the first clean page in key order, or none when every page is dirty. */
    method FindClean() returns (v: Option<PageId>)
      ensures v.Some? ==> v.value in pages && pages[v.value].dirty.None?
      ensures v.None? <==> AllDirty(pages)
    {
      var keys := pages.Keys;
      while keys != {}
        invariant keys <= pages.Keys
        invariant forall p :: p in pages && p !in keys ==> pages[p].dirty.Some?
        decreases keys
      {
        var p :| p in keys;
        if pages[p].dirty.None? {
          return Some(p);
        }
        keys := keys - {p};
      }
      return None;
    }

    /** flushPage: writes a cached dirty page through to disk and clears its tag. */
    method FlushPage(pid: PageId)
      requires Valid()
      modifies this
      ensures Valid()
      ensures (pages, disk) == PageCache.FlushPage(old(pages), old(disk), pid)
    {
      if pid in pages {
        var tmp := pages[pid];
        if tmp.dirty.Some? {
          disk := disk[tmp.id := tmp.data];
          pages := pages[pid := tmp.(dirty := None)];
        }
      }
    }

    /**
     * getPage: waits for the lock by re-asking grantLock; gives up with
     * TransactionAborted on the 25th retry or when isYield says so. Holding
     * the lock, it serves the page as Fetched describes. `key` is the
     * priority key isYield compares.
     */
    method GetPage(tid: TransactionId, pid: PageId, perm: Permissions, key: TransactionId -> int) returns (r: Result<Page>)
      requires Valid()
      modifies this, lockManager
      ensures Valid() && disk == old(disk)
      ensures lockManager.State() == LockTable.GrantLock(old(lockManager.State()), pid, tid, perm).1
      ensures !LockTable.GrantLock(old(lockManager.State()), pid, tid, perm).0 ==>
        r == Err(TransactionAborted) && pages == old(pages)
      ensures LockTable.GrantLock(old(lockManager.State()), pid, tid, perm).0 ==>
        Fetched(old(pages), disk, numPages, pid, pages, r)
      ensures |old(pages)| <= numPages ==> |pages| <= numPages
    {
      ghost var st0 := lockManager.State();
      var lock := lockManager.GrantLock(pid, tid, perm);
      var num := 0;
      while !lock
        invariant Valid() && pages == old(pages) && disk == old(disk)
        invariant 0 <= num < 25
        invariant (lock, lockManager.State()) == LockTable.GrantLock(st0, pid, tid, perm)
        decreases 25 - num
      {
        num := num + 1;
        if num == 25 {
          return Err(TransactionAborted);
        }
        var y := lockManager.IsYield(pid, tid, perm, key);
        if y {
          return Err(TransactionAborted);
        }
        lock := lockManager.GrantLock(pid, tid, perm);
      }
      if pid in pages {
        return Ok(pages[pid]);
      }
      if |pages| < numPages {
        var page := ReadFromDisk(disk, pid);
        if page.Err? {
          return Err(Db);
        }
        pages := pages[pid := page.value];
        return Ok(page.value);
      }
      var evict := FindClean();
      if evict.None? {
        return Err(Db);
      }
      var v := evict.value;
      FlushPage(v);
      pages := pages - {v};
      var page := ReadFromDisk(disk, pid);
      if page.Err? {
        assert (old(pages) - {v}).Keys == old(pages).Keys - {v};
        return Err(Db);
      }
      EvictForLoad(old(pages), v, page.value);
      pages := pages[pid := page.value];
      return Ok(page.value);
    }

    /** releasePage: gives up tid's locks on pid. */
    method ReleasePage(tid: TransactionId, pid: PageId)
      requires Valid()
      modifies lockManager
      ensures Valid()
      ensures lockManager.State() == LockTable.ReleaseLock(old(lockManager.State()), pid, tid)
    {
      lockManager.ReleaseLock(pid, tid);
    }

    /** flushPages(tid): flushes every cached page tid dirtied, and no other. */
    method FlushPages(tid: TransactionId)
      requires Valid()
      modifies this
      ensures Valid()
      ensures (pages, disk) == Commit(old(pages), old(disk), tid)
    {
      ghost var c0, d0 := pages, disk;
      ghost var done: set<PageId> := {};
      if |pages| == 0 {
        assert Flushed(c0, Some(tid), c0.Keys) == c0;
        assert Written(c0, d0, Some(tid), c0.Keys) == d0;
        return;
      }
      var keys := pages.Keys;
      assert Flushed(c0, Some(tid), {}) == c0;
      assert Written(c0, d0, Some(tid), {}) == d0;
      while keys != {}
        invariant Valid()
        invariant keys + done == c0.Keys && keys !! done
        invariant pages == Flushed(c0, Some(tid), done) && disk == Written(c0, d0, Some(tid), done)
        decreases keys
      {
        var p :| p in keys;
        FlushedStep(c0, Some(tid), done, p);
        WrittenStep(c0, d0, Some(tid), done, p);
        var page := pages[p];
        if page.dirty.Some? && page.dirty.value == tid {
          FlushPage(page.id);
        }
        keys := keys - {p};
        done := done + {p};
      }
    }

    /** flushAllPages: flushes every cached page. */
    method FlushAllPages()
      requires Valid()
      modifies this
      ensures Valid()
      ensures (pages, disk) == FlushAll(old(pages), old(disk))
    {
      ghost var c0, d0 := pages, disk;
      ghost var done: set<PageId> := {};
      var keys := pages.Keys;
      assert Flushed(c0, None, {}) == c0;
      assert Written(c0, d0, None, {}) == d0;
      while keys != {}
        invariant Valid()
        invariant keys + done == c0.Keys && keys !! done
        invariant pages == Flushed(c0, None, done) && disk == Written(c0, d0, None, done)
        decreases keys
      {
        var p :| p in keys;
        FlushedStep(c0, None, done, p);
        WrittenStep(c0, d0, None, done, p);
        FlushPage(p);
        keys := keys - {p};
        done := done + {p};
      }
    }

    /** discardPage: drops pid from the cache without writing it. */
    method DiscardPage(pid: PageId)
      requires Valid()
      modifies this
      ensures Valid() && disk == old(disk)
      ensures pages == old(pages) - {pid}
    {
      pages := pages - {pid};
    }

    /**
     * transactionComplete(tid, commit): releases all of tid's locks, then
     * commits (Commit) or aborts (Reload). A page missing from disk makes the
     * abort fail before any page is replaced.
     */
    method TransactionComplete(tid: TransactionId, commit: bool) returns (r: Result<()>)
      requires Valid()
      modifies this, lockManager
      ensures Valid()
      ensures lockManager.State() == LockTable.ReleaseTransaction(old(lockManager.State()), tid)
      ensures commit ==> r.Ok? && (pages, disk) == Commit(old(pages), old(disk), tid)
      ensures !commit ==> disk == old(disk)
      ensures !commit ==> (r.Ok? <==> Reload(old(pages), old(disk), tid).Ok?)
      ensures !commit && r.Ok? ==> pages == Reload(old(pages), old(disk), tid).value
      ensures !commit && r.Err? ==> pages == old(pages) && r.error == IllegalArgument
    {
      lockManager.ReleaseTransaction(tid);
      if commit {
        FlushPages(tid);
        return Ok(());
      }
      ghost var c0, locks := pages, lockManager.State();
      var oldpages: map<PageId, Page> := map[];
      var keys := pages.Keys;
      while keys != {}
        invariant Valid() && pages == c0 && disk == old(disk) && lockManager.State() == locks
        invariant keys <= c0.Keys
        invariant forall p :: p in oldpages <==> p in c0 && p !in keys && c0[p].dirty == Some(tid)
        invariant forall p :: p in oldpages ==> p in disk && oldpages[p] == Page(p, disk[p], None)
        decreases keys
      {
        var p :| p in keys;
        var page := pages[p];
        if page.dirty.Some? && page.dirty.value == tid {
          var reread := ReadFromDisk(disk, page.id);
          if reread.Err? {
            return Err(reread.error);
          }
          oldpages := oldpages[page.id := reread.value.(dirty := None)];
        }
        keys := keys - {p};
      }
      var rest := oldpages.Keys;
      while rest != {}
        invariant Valid() && disk == old(disk) && lockManager.State() == locks
        invariant rest <= oldpages.Keys
        invariant pages.Keys == c0.Keys
        invariant forall p :: p in pages ==> pages[p] == if p in oldpages && p !in rest then oldpages[p] else c0[p]
        decreases rest
      {
        var p :| p in rest;
        pages := pages[oldpages[p].id := oldpages[p]];
        rest := rest - {p};
      }
      assert pages == Reload(c0, old(disk), tid).value;
      return Ok(());
    }

    /** transactionComplete(tid): commits. */
    method TransactionCommit(tid: TransactionId) returns (r: Result<()>)
      requires Valid()
      modifies this, lockManager
      ensures Valid() && r.Ok?
      ensures lockManager.State() == LockTable.ReleaseTransaction(old(lockManager.State()), tid)
      ensures (pages, disk) == Commit(old(pages), old(disk), tid)
    {
      r := TransactionComplete(tid, true);
    }

    /** One page of insertTuple, already marked dirty; see InsertStep. */
    method InsertPage(page: Page) returns (ok: bool)
      requires Valid()
      modifies this
      ensures Valid() && disk == old(disk)
      ensures InsertStep(old(pages), numPages, page, pages, ok)
    {
      if page.id in pages {
        pages := pages[page.id := page];
        return true;
      }
      if |pages| < numPages {
        pages := pages[page.id := page];
        return true;
      }
      if |pages| == 0 {
        return false;
      }
      var evict := FindClean();
      if evict.None? {
        FlushPage(page.id);
        return true;
      }
      var v := evict.value;
      FlushPage(v);
      pages := pages - {v};
      pages := pages[page.id := page];
      return true;
    }

    /**
     * insertTuple: `dirtied` is the list of pages the table's file returns for
     * the insertion. Each is marked dirty by tid and handled as InsertStep
     * says; `trace` is the cache before each step. The disk is never written.
     */
    method InsertTuple(tid: TransactionId, dirtied: seq<Page>) returns (r: Result<()>, ghost trace: seq<Cache>)
      requires Valid()
      modifies this
      ensures Valid() && disk == old(disk)
      ensures 1 <= |trace| <= |dirtied| + 1 && trace[0] == old(pages) && trace[|trace| - 1] == pages
      ensures forall i :: 0 <= i < |trace| - 1 ==>
        InsertStep(trace[i], numPages, MarkDirty(dirtied[i], tid), trace[i + 1], true)
      ensures r.Ok? <==> |trace| == |dirtied| + 1
      ensures r.Err? ==> (r.error == NoSuchElement &&
        InsertStep(pages, numPages, MarkDirty(dirtied[|trace| - 1], tid), pages, false))
      ensures |old(pages)| <= numPages ==> |pages| <= numPages
    {
      trace := [pages];
      for i := 0 to |dirtied|
        invariant Valid() && disk == old(disk)
        invariant |trace| == i + 1 && trace[0] == old(pages) && trace[i] == pages
        invariant forall k :: 0 <= k < i ==>
          InsertStep(trace[k], numPages, MarkDirty(dirtied[k], tid), trace[k + 1], true)
        invariant |old(pages)| <= numPages ==> |pages| <= numPages
      {
        var page := MarkDirty(dirtied[i], tid);
        ghost var before := pages;
        var ok := InsertPage(page);
        InsertStepFacts(before, numPages, page, pages, ok);
        if !ok {
          return Err(NoSuchElement), trace;
        }
        trace := trace + [pages];
      }
      r := Ok(());
    }

    /**
     * deleteTuple: `dirtied` is the list of pages the table's file returns for
     * the deletion. Each is marked dirty by tid and put, with no capacity check.
     */
    method DeleteTuple(tid: TransactionId, dirtied: seq<Page>)
      requires Valid()
      modifies this
      ensures Valid() && disk == old(disk)
      ensures pages == PutAll(old(pages), MarkAll(dirtied, tid))
    {
      var marked := MarkAll(dirtied, tid);
      for i := 0 to |dirtied|
        invariant Valid() && disk == old(disk)
        invariant pages == PutAll(old(pages), marked[..i])
      {
        assert marked[..i + 1][..i] == marked[..i];
        pages := pages[marked[i].id := marked[i]];
      }
      assert marked[..|dirtied|] == marked;
    }
  }
}
