/**
 * HeapFile: a table stored as a sequence of fixed-size pages in one file. The
 * page-count and readPage arithmetic are functions over the file's bytes; the
 * file iterator, whose page index and cursor advance in place, is a class over
 * the table's pages, each page given as the tuples its own iterator yields.
 */
module HeapFiles {
  import opened Common
  import opened TupleDescs
  import opened Tuples
  import opened PageCache

  /** A heap file: the bytes of its backing file and its schema. */
  datatype HeapFile = HeapFile(file: seq<bv8>, td: TupleDesc)

  /** numPages: the file length divided by the page size, rounded down. */
  function NumPages(fileLength: nat, pageSize: nat): (n: nat)
    requires pageSize > 0
    ensures n * pageSize <= fileLength < (n + 1) * pageSize
  {
    fileLength / pageSize
  }

  function Min(a: int, b: int): int {
    if a < b then a else b
  }

  /**
   * readPage(pid): the page whose end offset (pgNo + 1) * pageSize lies past
   * the file's end is rejected; a negative page number makes the seek fail,
   * which also ends in IllegalArgument; so does a read of fewer than pageSize
   * bytes. Otherwise the page holds the pageSize bytes at pgNo * pageSize and
   * starts clean.
   */
  function ReadPage(file: seq<bv8>, pid: PageId, pageSize: nat): Result<Page>
    requires pageSize > 0
  {
    var pgNo := pid.pageNumber;
    if (pgNo + 1) * pageSize > |file| then
      Err(IllegalArgument)
    else if pgNo < 0 then
      Err(IllegalArgument)
    else
      var offset := pgNo * pageSize;
      var count := Min(pageSize, |file| - offset);
      if count != pageSize then Err(IllegalArgument)
      else Ok(Page(pid, file[offset..offset + pageSize], None))
  }

  /**
   * readPage succeeds exactly for the page numbers below numPages, and then
   * returns the pageSize bytes starting at offset pgNo * pageSize.
   */
  lemma ReadPageSpec(file: seq<bv8>, pid: PageId, pageSize: nat)
    requires pageSize > 0
    ensures ReadPage(file, pid, pageSize).Ok? <==> 0 <= pid.pageNumber < NumPages(|file|, pageSize)
    ensures ReadPage(file, pid, pageSize).Err? ==> ReadPage(file, pid, pageSize).error == IllegalArgument
    ensures ReadPage(file, pid, pageSize).Ok? ==>
      var pg := ReadPage(file, pid, pageSize).value;
      && pg.id == pid && pg.dirty.None?
      && |pg.data| == pageSize
      && forall i :: 0 <= i < pageSize ==> pg.data[i] == file[pid.pageNumber * pageSize + i]
  {
    var n := NumPages(|file|, pageSize);
    var pgNo := pid.pageNumber;
    if 0 <= pgNo < n {
      assert (pgNo + 1) * pageSize <= n * pageSize by {
        MulMono(pgNo + 1, n, pageSize);
      }
    } else if pgNo >= n {
      MulMono(n + 1, pgNo + 1, pageSize);
    }
  }

  lemma MulMono(a: int, b: int, k: nat)
    requires a <= b
    ensures a * k <= b * k
  {
  }

  /**
   * The file seen as the buffer pool's disk: page n of table tableId is the
   * n-th pageSize slice. Reading through that map is readPage.
   */
  function DiskOf(tableId: int, file: seq<bv8>, pageSize: nat): Disk
    requires pageSize > 0
  {
    map n | 0 <= n < NumPages(|file|, pageSize) && ReadPage(file, PageId(tableId, n), pageSize).Ok? ::
      PageId(tableId, n) := ReadPage(file, PageId(tableId, n), pageSize).value.data
  }

  lemma DiskOfReads(tableId: int, file: seq<bv8>, pageSize: nat, pid: PageId)
    requires pageSize > 0 && pid.tableId == tableId
    ensures ReadFromDisk(DiskOf(tableId, file, pageSize), pid).Ok? <==> ReadPage(file, pid, pageSize).Ok?
    ensures ReadPage(file, pid, pageSize).Ok? ==>
      ReadFromDisk(DiskOf(tableId, file, pageSize), pid) == ReadPage(file, pid, pageSize)
  {
    ReadPageSpec(file, pid, pageSize);
    if 0 <= pid.pageNumber < NumPages(|file|, pageSize) {
      assert pid == PageId(tableId, pid.pageNumber);
    }
  }

  // ---------------------------------------------------------------------------
  // The file iterator

  /** All tuples of the pages, in page order. */
  function Flatten(pages: seq<seq<Tuple>>): seq<Tuple>
    decreases |pages|
  {
    if pages == [] then [] else pages[0] + Flatten(pages[1..])
  }

  /**
   * What a hasNext/next loop yields once it has moved on to page j: pages are
   * read in ascending order, and an empty page makes hasNext answer false.
   */
  function ScanFrom(pages: seq<seq<Tuple>>, j: nat): seq<Tuple>
    decreases |pages| - j
  {
    if j >= |pages| || pages[j] == [] then [] else pages[j] + ScanFrom(pages, j + 1)
  }

  /** The tuples an opened iterator yields: all of page 0, then ScanFrom(1). */
  function TableScan(pages: seq<seq<Tuple>>): seq<Tuple> {
    if pages == [] then [] else pages[0] + ScanFrom(pages, 1)
  }

  lemma {:induction false} ScanFromIsFlatten(pages: seq<seq<Tuple>>, j: nat)
    requires j <= |pages|
    requires forall k :: j <= k < |pages| ==> pages[k] != []
    ensures ScanFrom(pages, j) == Flatten(pages[j..])
    decreases |pages| - j
  {
    if j < |pages| {
      ScanFromIsFlatten(pages, j + 1);
      assert pages[j..][1..] == pages[j + 1..];
    } else {
      assert pages[j..] == [];
    }
  }

  lemma {:induction false} ScanFromIsPrefix(pages: seq<seq<Tuple>>, j: nat)
    requires j <= |pages|
    ensures ScanFrom(pages, j) <= Flatten(pages[j..])
    decreases |pages| - j
  {
    if j < |pages| {
      ScanFromIsPrefix(pages, j + 1);
      assert pages[j..][1..] == pages[j + 1..];
      if pages[j] != [] {
        PrefixAppend(pages[j], ScanFrom(pages, j + 1), Flatten(pages[j + 1..]));
      }
    }
  }

  lemma PrefixAppend(a: seq<Tuple>, b: seq<Tuple>, c: seq<Tuple>)
    requires b <= c
    ensures a + b <= a + c
  {
    assert (a + c)[..|a + b|] == a + b;
  }

  /**
   * A full scan yields every tuple of the table in page order when no page
   * after the first is empty, and in any case a prefix of them.
   */
  lemma TableScanFacts(pages: seq<seq<Tuple>>)
    ensures TableScan(pages) <= Flatten(pages)
    ensures (forall k :: 1 <= k < |pages| ==> pages[k] != []) ==> TableScan(pages) == Flatten(pages)
  {
    if pages != [] {
      ScanFromIsPrefix(pages, 1);
      PrefixAppend(pages[0], ScanFrom(pages, 1), Flatten(pages[1..]));
      if forall k :: 1 <= k < |pages| ==> pages[k] != [] {
        ScanFromIsFlatten(pages, 1);
      }
    }
  }

  /**
   * HeapFileIterator: `index` is the current page; `cursor` is the position in
   * that page's tuple iterator, None while no tuple iterator is set (before
   * open, after close). `pages` holds each page's tuples as the buffer pool
   * serves them.
   */
  class HeapFileIterator {
    const pages: seq<seq<Tuple>>
    var index: int
    var cursor: Option<nat>

    ghost predicate Valid()
      reads this
    {
      cursor.Some? ==> 0 <= index < |pages| && cursor.value <= |pages[index]|
    }

    /** The tuples a hasNext/next loop started now would yield. */
    ghost function Visible(): seq<Tuple>
      reads this
      requires Valid()
    {
      match cursor
      case None => []
      case Some(k) => pages[index][k..] + ScanFrom(pages, index + 1)
    }

    constructor (pages: seq<seq<Tuple>>)
      ensures Valid() && this.pages == pages && cursor.None? && Visible() == []
    {
      this.pages := pages;
      this.index := 0;
      this.cursor := None;
    }

    /** open: positions at page 0; a file with no pages fails and leaves the tuple iterator as it was. */
    method Open() returns (r: Result<()>)
      requires Valid()
      modifies this
      ensures Valid() && index == 0
      ensures |pages| == 0 ==> r == Err(Db) && cursor == old(cursor)
      ensures |pages| > 0 ==> r.Ok? && cursor == Some(0) && Visible() == TableScan(pages)
    {
      index := 0;
      if 0 < |pages| {
        cursor := Some(0);
        assert pages[0][0..] == pages[0];
        return Ok(());
      }
      return Err(Db);
    }

    /**
     * hasNext: true while the current page has tuples left; otherwise moves to
     * the next page, if any, and answers whether that page has tuples.
     */
    method HasNext() returns (r: bool)
      requires Valid()
      modifies this
      ensures Valid()
      ensures r <==> old(Visible()) != []
      ensures r ==> Visible() == old(Visible())
      ensures cursor.Some? <==> old(cursor).Some?
      ensures old(cursor).Some? && old(cursor).value >= |pages[old(index)]| && old(index) < |pages| - 1 ==>
        index == old(index) + 1 && cursor == Some(0)
      ensures !(old(cursor).Some? && old(cursor).value >= |pages[old(index)]| && old(index) < |pages| - 1) ==>
        index == old(index) && cursor == old(cursor)
    {
      if cursor.None? {
        return false;
      }
      if cursor.value < |pages[index]| {
        return true;
      }
      if index < |pages| - 1 {
        index := index + 1;
        cursor := Some(0);
        assert pages[index][0..] == pages[index];
        return |pages[index]| > 0;
      }
      return false;
    }

    /** next: the tuple under the cursor; NoSuchElement when closed or when the current page is exhausted. */
    method Next() returns (r: Result<Tuple>)
      requires Valid()
      modifies this
      ensures Valid() && index == old(index)
      ensures r.Ok? <==> old(cursor).Some? && old(cursor).value < |pages[index]|
      ensures r.Err? ==> r.error == NoSuchElement && cursor == old(cursor) && Visible() == old(Visible())
      ensures r.Ok? ==> old(Visible()) == [r.value] + Visible()
    {
      if cursor.None? || cursor.value >= |pages[index]| {
        return Err(NoSuchElement);
      }
      var k := cursor.value;
      var page := pages[index];
      ghost var rest := ScanFrom(pages, index + 1);
      assert old(Visible()) == page[k..] + rest;
      r := Ok(page[k]);
      cursor := Some(k + 1);
      assert Visible() == page[k + 1..] + rest;
      assert page[k..] == [page[k]] + page[k + 1..];
    }

    /** close: drops the tuple iterator. */
    method Close()
      requires Valid()
      modifies this
      ensures Valid() && cursor.None? && Visible() == [] && index == old(index)
    {
      cursor := None;
    }

    /** rewind: close, then open. */
    method Rewind() returns (r: Result<()>)
      requires Valid()
      modifies this
      ensures Valid() && index == 0
      ensures |pages| == 0 ==> r == Err(Db) && cursor.None?
      ensures |pages| > 0 ==> r.Ok? && cursor == Some(0) && Visible() == TableScan(pages)
    {
      Close();
      r := Open();
    }
  }
}
