/**
 * The buffer pool's cache as a value: a map from page id to page, each page
 * carrying its bytes and a dirty tag (empty, or the transaction that dirtied
 * it), next to the disk, a map from page id to the bytes stored there. The
 * functions give the effect of each cache operation; the lemmas state the
 * capacity bound, no-steal eviction and the commit/abort effects.
 */
module PageCache {
  import opened Common

  datatype Page = Page(id: PageId, data: seq<bv8>, dirty: Option<TransactionId>)

  type Cache = map<PageId, Page>

  /** The catalog's files, page by page: what readPage returns and writePage stores. */
  type Disk = map<PageId, seq<bv8>>

  /** Every cached page sits under its own id. */
  ghost predicate Keyed(c: Cache) {
    forall p :: p in c ==> c[p].id == p
  }

  predicate AllDirty(c: Cache) {
    forall p :: p in c ==> c[p].dirty.Some?
  }

  /** readPage through the catalog: a fresh, clean page, or a failure when the file has no such page. */
  function ReadFromDisk(d: Disk, pid: PageId): Result<Page> {
    if pid in d then Ok(Page(pid, d[pid], None)) else Err(IllegalArgument)
  }

  /** markDirty(true, tid) */
  function MarkDirty(pg: Page, tid: TransactionId): Page {
    pg.(dirty := Some(tid))
  }

  /** put: the page is cached under its id, replacing any older version. */
  function Put(c: Cache, pg: Page): Cache {
    c[pg.id := pg]
  }

  // ---------------------------------------------------------------------------
  // Loading and eviction

  /** A miss with room: the cache grows by exactly the one new page and keeps every other entry. */
  lemma LoadIntoRoom(c: Cache, n: int, pg: Page)
    requires pg.id !in c && |c| < n
    ensures |Put(c, pg)| == |c| + 1 <= n
    ensures pg.id in Put(c, pg) && Put(c, pg)[pg.id] == pg
    ensures forall p :: p in c ==> p in Put(c, pg) && Put(c, pg)[p] == c[p]
  {
  }

  /**
   * A miss with a full cache: removing a clean victim and putting the new page
   * keeps the size, and every dirty page stays cached with its contents.
   */
  lemma EvictForLoad(c: Cache, v: PageId, pg: Page)
    requires v in c && c[v].dirty.None? && pg.id !in c
    ensures |Put(c - {v}, pg)| == |c|
    ensures pg.id in Put(c - {v}, pg) && Put(c - {v}, pg)[pg.id] == pg
    ensures forall p :: p in c && c[p].dirty.Some? ==> p in Put(c - {v}, pg) && Put(c - {v}, pg)[p] == c[p]
    ensures forall p :: p in c && p != v ==> p in Put(c - {v}, pg)
  {
    assert (c - {v}).Keys == c.Keys - {v};
    assert Put(c - {v}, pg).Keys == c.Keys - {v} + {pg.id};
  }

  /**
   * getPage once the lock is held: a hit returns the cached page; a miss with
   * room reads the page in; a miss with a full cache evicts some clean page
   * first, and fails when every page is dirty. A failed read surfaces as Db
   * (after the eviction, when there was one).
   */
  ghost predicate Fetched(c: Cache, d: Disk, n: int, pid: PageId, c': Cache, r: Result<Page>) {
    if pid in c then
      r == Ok(c[pid]) && c' == c
    else if |c| < n then
      if pid in d then r == Ok(Page(pid, d[pid], None)) && c' == Put(c, r.value)
      else r == Err(Db) && c' == c
    else if AllDirty(c) then
      r == Err(Db) && c' == c
    else
      exists v :: v in c && c[v].dirty.None? &&
        if pid in d then r == Ok(Page(pid, d[pid], None)) && c' == Put(c - {v}, r.value)
        else r == Err(Db) && c' == c - {v}
  }

  /**
   * getPage keeps the capacity bound, never drops a dirty page, and succeeds
   * exactly when the page is cached, or is on disk and there is room or a
   * clean victim; what it returns is then cached under pid.
   */
  lemma FetchedFacts(c: Cache, d: Disk, n: int, pid: PageId, c': Cache, r: Result<Page>)
    requires Fetched(c, d, n, pid, c', r)
    ensures |c| <= n ==> |c'| <= n
    ensures forall p :: p in c && c[p].dirty.Some? ==> p in c' && c'[p] == c[p]
    ensures r.Ok? <==> pid in c || (pid in d && (|c| < n || !AllDirty(c)))
    ensures r.Ok? ==> pid in c' && c'[pid] == r.value
    ensures r.Err? ==> r.error == Db
  {
    if pid !in c && |c| >= n && !AllDirty(c) {
      var v :| v in c && c[v].dirty.None? &&
        if pid in d then r == Ok(Page(pid, d[pid], None)) && c' == Put(c - {v}, r.value)
        else r == Err(Db) && c' == c - {v};
      if pid in d {
        EvictForLoad(c, v, r.value);
      } else {
        assert (c - {v}).Keys == c.Keys - {v};
      }
    }
  }

  // ---------------------------------------------------------------------------
  // Flushing

  /** flushPage(pid): a cached dirty page is written and its tag cleared; otherwise nothing happens. */
  function FlushPage(c: Cache, d: Disk, pid: PageId): (Cache, Disk) {
    if pid in c && c[pid].dirty.Some? then
      (c[pid := c[pid].(dirty := None)], d[pid := c[pid].data])
    else
      (c, d)
  }

  lemma FlushPageEffect(c: Cache, d: Disk, pid: PageId)
    ensures FlushPage(c, d, pid).0.Keys == c.Keys
    ensures pid in c && c[pid].dirty.Some? ==>
      && FlushPage(c, d, pid).0[pid] == c[pid].(dirty := None)
      && FlushPage(c, d, pid).1 == d[pid := c[pid].data]
    ensures !(pid in c && c[pid].dirty.Some?) ==> FlushPage(c, d, pid) == (c, d)
    ensures forall p :: p in c && p != pid ==> FlushPage(c, d, pid).0[p] == c[p]
  {
  }

  /** The pages a flush loop acts on: dirty ones, restricted to one transaction's when `who` is given. */
  predicate Selected(pg: Page, who: Option<TransactionId>) {
    pg.dirty.Some? && (who.None? || pg.dirty == who)
  }

  /** The cache after the pages of S selected by `who` have been flushed. */
  function Flushed(c: Cache, who: Option<TransactionId>, S: set<PageId>): Cache {
    map p | p in c :: if p in S && Selected(c[p], who) then c[p].(dirty := None) else c[p]
  }

  /** The disk after the pages of S selected by `who` have been written. */
  function Written(c: Cache, d: Disk, who: Option<TransactionId>, S: set<PageId>): Disk {
    d + map p | p in c && p in S && Selected(c[p], who) :: c[p].data
  }

  /** One more page of a flush loop, cache side: the page is cleaned exactly when it is selected. */
  lemma FlushedStep(c: Cache, who: Option<TransactionId>, S: set<PageId>, p: PageId)
    requires p in c && p !in S
    ensures Flushed(c, who, S)[p] == c[p]
    ensures Flushed(c, who, S + {p}) ==
      if Selected(c[p], who) then Flushed(c, who, S)[p := c[p].(dirty := None)] else Flushed(c, who, S)
  {
    var c0, c1 := Flushed(c, who, S), Flushed(c, who, S + {p});
    var e := if Selected(c[p], who) then c0[p := c[p].(dirty := None)] else c0;
    assert c1.Keys == e.Keys;
    forall q | q in c1
      ensures c1[q] == e[q]
    {
      if q != p {
        assert c1[q] == c0[q];
      }
    }
  }

  /** One more page of a flush loop, disk side: the page's bytes are written exactly when it is selected. */
  lemma WrittenStep(c: Cache, d: Disk, who: Option<TransactionId>, S: set<PageId>, p: PageId)
    requires p in c && p !in S
    ensures Written(c, d, who, S + {p}) ==
      if Selected(c[p], who) then Written(c, d, who, S)[p := c[p].data] else Written(c, d, who, S)
  {
    var d0, d1 := Written(c, d, who, S), Written(c, d, who, S + {p});
    var e := if Selected(c[p], who) then d0[p := c[p].data] else d0;
    assert d1.Keys == e.Keys;
    forall q | q in d1
      ensures d1[q] == e[q]
    {
      if q != p {
        assert d1[q] == d0[q];
      }
    }
  }

  /** flushPages(tid), the commit path: every page tid dirtied is written and becomes clean. */
  function Commit(c: Cache, d: Disk, tid: TransactionId): (Cache, Disk) {
    (Flushed(c, Some(tid), c.Keys), Written(c, d, Some(tid), c.Keys))
  }

  /** flushAllPages: every dirty page is written and becomes clean. */
  function FlushAll(c: Cache, d: Disk): (Cache, Disk) {
    (Flushed(c, None, c.Keys), Written(c, d, None, c.Keys))
  }

  /**
   * Commit writes exactly tid's dirty pages: they become clean with their bytes
   * on disk; pages dirtied by other transactions are neither written nor
   * changed, and the cached key set stays the same.
   */
  lemma CommitEffect(c: Cache, d: Disk, tid: TransactionId)
    ensures Commit(c, d, tid).0.Keys == c.Keys
    ensures forall p :: p in c && c[p].dirty == Some(tid) ==>
      && Commit(c, d, tid).0[p] == c[p].(dirty := None)
      && p in Commit(c, d, tid).1 && Commit(c, d, tid).1[p] == c[p].data
    ensures forall p :: p in c && c[p].dirty != Some(tid) ==> Commit(c, d, tid).0[p] == c[p]
    ensures forall p :: p in d && !(p in c && c[p].dirty == Some(tid)) ==>
      p in Commit(c, d, tid).1 && Commit(c, d, tid).1[p] == d[p]
    ensures forall p :: p in Commit(c, d, tid).1 ==> p in d || (p in c && c[p].dirty == Some(tid))
    ensures forall p :: p in Commit(c, d, tid).0 ==> Commit(c, d, tid).0[p].dirty != Some(tid)
  {
  }

  /** After flushAllPages no cached page is dirty and the disk holds every formerly dirty page's bytes. */
  lemma FlushAllEffect(c: Cache, d: Disk)
    ensures FlushAll(c, d).0.Keys == c.Keys
    ensures forall p :: p in c ==> FlushAll(c, d).0[p] == c[p].(dirty := None)
    ensures forall p :: p in c && c[p].dirty.Some? ==> p in FlushAll(c, d).1 && FlushAll(c, d).1[p] == c[p].data
    ensures forall p :: p in d && !(p in c && c[p].dirty.Some?) ==> p in FlushAll(c, d).1 && FlushAll(c, d).1[p] == d[p]
  {
  }

  // ---------------------------------------------------------------------------
  // Abort

  /**
   * The abort path of transactionComplete: every page tid dirtied is replaced
   * by a clean copy re-read from disk. The re-reads all happen before any
   * replacement, so one page missing from disk fails the whole step and the
   * cache is left as it was.
   */
  function Reload(c: Cache, d: Disk, tid: TransactionId): Result<Cache> {
    if exists p :: p in c && c[p].dirty == Some(tid) && p !in d then
      Err(IllegalArgument)
    else
      Ok(map p | p in c :: if c[p].dirty == Some(tid) then Page(p, d[p], None) else c[p])
  }

  lemma AbortEffect(c: Cache, d: Disk, tid: TransactionId)
    ensures Reload(c, d, tid).Ok? <==> forall p :: p in c && c[p].dirty == Some(tid) ==> p in d
    ensures Reload(c, d, tid).Err? ==> Reload(c, d, tid).error == IllegalArgument
    ensures Reload(c, d, tid).Ok? ==>
      && Reload(c, d, tid).value.Keys == c.Keys
      && (forall p :: p in c && c[p].dirty == Some(tid) ==> Reload(c, d, tid).value[p] == Page(p, d[p], None))
      && (forall p :: p in c && c[p].dirty != Some(tid) ==> Reload(c, d, tid).value[p] == c[p])
  {
  }

  /** A successful abort leaves nothing tagged by tid and keeps the cache keyed. */
  lemma AbortCleans(c: Cache, d: Disk, tid: TransactionId)
    requires Keyed(c) && Reload(c, d, tid).Ok?
    ensures Keyed(Reload(c, d, tid).value)
    ensures forall p :: p in Reload(c, d, tid).value ==> Reload(c, d, tid).value[p].dirty != Some(tid)
  {
  }

  // ---------------------------------------------------------------------------
  // insertTuple, one page at a time

  /**
   * What insertTuple does with one page pg the file returned (already marked
   * dirty): a cached page is replaced; an uncached one is added when there is
   * room, or swapped in for a clean victim; with no clean victim the cache is
   * unchanged. `ok` is false when the cache is full and empty at once
   * (a capacity of zero or less), where the key iterator has no first element.
   */
  ghost predicate InsertStep(c: Cache, n: int, pg: Page, c': Cache, ok: bool) {
    if pg.id in c || |c| < n then
      ok && c' == Put(c, pg)
    else if |c| == 0 then
      !ok && c' == c
    else if AllDirty(c) then
      ok && c' == c
    else
      ok && exists v :: v in c && c[v].dirty.None? && c' == Put(c - {v}, pg)
  }

  /**
   * One insertTuple step keeps the capacity bound, never drops a dirty page
   * other than the one being replaced, and leaves pg cached unless the cache
   * is full of dirty pages.
   */
  lemma InsertStepFacts(c: Cache, n: int, pg: Page, c': Cache, ok: bool)
    requires InsertStep(c, n, pg, c', ok)
    ensures |c| <= n ==> |c'| <= n
    ensures forall p :: p in c && c[p].dirty.Some? && p != pg.id ==> p in c' && c'[p] == c[p]
    ensures pg.id in c' <==> pg.id in c || |c| < n || (|c| > 0 && !AllDirty(c))
    ensures pg.id in c' ==> c'[pg.id] == pg
    ensures !ok <==> pg.id !in c && |c| >= n && |c| == 0
  {
    if !(pg.id in c || |c| < n) && |c| != 0 && !AllDirty(c) {
      var v :| v in c && c[v].dirty.None? && c' == Put(c - {v}, pg);
      EvictForLoad(c, v, pg);
    }
  }

  // ---------------------------------------------------------------------------
  // deleteTuple

  /** The pages put one after another, later ones replacing earlier ones with the same id. */
  function PutAll(c: Cache, ps: seq<Page>): Cache
    decreases |ps|
  {
    if ps == [] then c else Put(PutAll(c, ps[..|ps| - 1]), ps[|ps| - 1])
  }

  /** The ids of a list of pages. */
  function Ids(ps: seq<Page>): (ids: set<PageId>)
    ensures forall i :: 0 <= i < |ps| ==> ps[i].id in ids
    ensures forall p :: p in ids ==> exists i :: 0 <= i < |ps| && ps[i].id == p
    decreases |ps|
  {
    if ps == [] then {} else Ids(ps[..|ps| - 1]) + {ps[|ps| - 1].id}
  }

  /**
   * deleteTuple performs no capacity check: its puts add exactly the pages'
   * ids to the key set, so the size stays the same only when every page is
   * already cached.
   */
  lemma {:induction false} PutAllKeys(c: Cache, ps: seq<Page>)
    ensures PutAll(c, ps).Keys == c.Keys + Ids(ps)
    decreases |ps|
  {
    if ps != [] {
      var init := ps[..|ps| - 1];
      PutAllKeys(c, init);
      assert Ids(ps) == Ids(init) + {ps[|ps| - 1].id};
    }
  }

  /** When every page is already cached, deleteTuple's puts keep the size and hence the capacity bound. */
  lemma PutAllCached(c: Cache, ps: seq<Page>)
    requires Ids(ps) <= c.Keys
    ensures PutAll(c, ps).Keys == c.Keys && |PutAll(c, ps)| == |c|
  {
    PutAllKeys(c, ps);
  }

  /** A page the list does not mention keeps its cached version. */
  lemma {:induction false} PutAllUntouched(c: Cache, ps: seq<Page>, p: PageId)
    requires p in c && p !in Ids(ps)
    ensures p in PutAll(c, ps) && PutAll(c, ps)[p] == c[p]
    decreases |ps|
  {
    if ps != [] {
      PutAllUntouched(c, ps[..|ps| - 1], p);
    }
  }

  /** Each put page is found under its id unless a later page in the list has the same id. */
  lemma {:induction false} PutAllLastWins(c: Cache, ps: seq<Page>, i: int)
    requires 0 <= i < |ps|
    requires forall j :: i < j < |ps| ==> ps[j].id != ps[i].id
    ensures ps[i].id in PutAll(c, ps) && PutAll(c, ps)[ps[i].id] == ps[i]
    decreases |ps|
  {
    if i < |ps| - 1 {
      PutAllLastWins(c, ps[..|ps| - 1], i);
    }
  }
}
