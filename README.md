# SimpleDB storage core in Dafny

This project models the page-locking and page-caching core of a small
SimpleDB storage engine, together with the schema, tuple, scan and string
aggregation logic built on it:

- **LockManager.** Per page, it keeps a list of shared holders and a list of
  exclusive holders, plus a counter of recorded locks.
  - `grantLock` decides from four counts.
  - `releaseLock` and `releaseTransaction` remove holders.
  - `isYield` is the starvation heuristic.
- **BufferPool.** A bounded map from page id to page, with a dirty tag per
  page.
  - `getPage` waits for the lock, then hits, loads into free room, or evicts
    a clean page.
  - On commit it flushes; on abort it reloads from disk.
  - It inserts and deletes tuples.
- **HeapFile.** It covers the page count, the `readPage` bounds check and
  slice, and the file iterator (page index and cursor).
- **TupleDesc and Tuple.** Schemas and records.
- **StringAggregator.** COUNT per group.
- **SeqScan.** The alias-prefixed schema and the iterator state.

## Layout

- `common.dfy` (module `Common`): identifiers, field values, `Option`/`Result`, and the exceptions as an `Error` datatype.
- `tuple_desc.dfy` (`TupleDescs`): the schema as a value, with the constructors, `merge`, `getSize`, `fieldNameToIndex` and `equals` as loops proved against functions.
- `tuple.dfy` (`Tuples`): the `Tuple` class, whose field slots and record id are updated in place.
- `lock_table.dfy` (`LockTable`): the lock table as a value.
  - One function per LockManager operation.
  - The invariant: no duplicate holders, and an exclusive holder is alone on its page.
  - The compatibility rules and release postconditions as lemmas.
- `lock_manager.dfy` (`LockManagers`): the `LockManager` class. Its two maps and counter are fields, and each method is proved to move them exactly as the `LockTable` function does.
- `page_cache.dfy` (`PageCache`): the cache and the disk as maps, with the effect of each BufferPool operation as a function or predicate, and the capacity, no-steal, commit and abort properties as lemmas.
- `buffer_pool.dfy` (`BufferPools`): the `BufferPool` class, with its retry loop, eviction scan and flush/reload loops.
- `heap_file.dfy` (`HeapFiles`): `numPages`, `readPage`, and the `HeapFileIterator` class over the table's pages.
- `string_aggregator.dfy` (`StringAggregators`): the `StringAggregator` class. Its group map is always the fold of one merge step over the keys merged so far.
- `seq_scan.dfy` (`SeqScans`): the `SeqScan` class.

Java `null` is `Option.None`, and a thrown exception is `Result.Err`. The
catalog is modelled as given data:

- the disk is a map from page id to bytes;
- a table's schema and pages are functions of its id;
- the pages a file returns for an insertion or deletion are a parameter.

## Model

| member | source | states |
|---|---|---|
| LockTable.CountsMeaning | src/java/simpledb/LockManager.java:74-91 | Under the invariant, the four counts grantLock gathers are 0/1 membership tests, and "no other holder" tests |
| LockTable.SharedRequest | src/java/simpledb/LockManager.java:92-102 | A shared request is granted iff no other transaction holds the exclusive lock. tid is recorded only when not already a shared holder, even when it holds the exclusive lock; a denial changes nothing |
| LockTable.ExclusiveRequest | src/java/simpledb/LockManager.java:103-115 | An exclusive request is granted iff tid already holds it or no other transaction holds anything on the page (the sole shared holder upgrades). It is recorded only in the second case; a denial changes nothing |
| LockTable.GrantCounter | src/java/simpledb/LockManager.java:19-38 | The counter grows by exactly one when grantLock records a new holder, who was not in the list before, and otherwise stays put |
| LockTable.GrantPreservesInv | src/java/simpledb/LockManager.java:19-38 | Every grant decision keeps the invariant: no holder listed twice, and an exclusive holder alone on its page |
| LockTable.EmptyInv | src/java/simpledb/LockManager.java:14-17 | The empty lock table satisfies the invariant |
| LockTable.ReleaseLockEffect | src/java/simpledb/LockManager.java:118-129 | tid leaves both lists of pid. Every other transaction keeps its holdings there, other pages are untouched, the invariant and counter are kept, and a second call changes nothing |
| LockTable.ReleaseTransactionEffect | src/java/simpledb/LockManager.java:131-142 | tid is in no list of any page, every other transaction holds exactly what it held, and the invariant and counter are kept |
| LockTable.StripKeysStep | src/java/simpledb/LockManager.java:131-142 | Releasing one more page extends the set of pages already released |
| LockTable.StripKeysAll | src/java/simpledb/LockManager.java:131-142 | Once every page listing tid is released, the table is releaseTransaction's result |
| LockManagers.CountHolders | src/java/simpledb/LockManager.java:76-91 | The counting loops return the number of entries equal to tid and the number that differ |
| LockManagers.FindSmallerOther | src/java/simpledb/LockManager.java:44-69 | The scan answers whether some holder other than tid has a smaller priority key |
| LockManagers.LockManager.constructor | src/java/simpledb/LockManager.java:11-17 | Starts with empty maps and counter 0, which satisfies the invariant |
| LockManagers.LockManager.AddLock | src/java/simpledb/LockManager.java:19-38 | Bumps the counter and appends tid to pid's list for perm, creating the list when absent |
| LockManagers.LockManager.GrantLock | src/java/simpledb/LockManager.java:74-116 | The answer and the new table are grantLock's, and the invariant is kept |
| LockManagers.LockManager.IsYield | src/java/simpledb/LockManager.java:39-73 | False while the counter is below 100. Otherwise true iff an exclusive holder, or for a write request a shared holder, other than tid has a smaller priority key |
| LockManagers.LockManager.ReleaseLock | src/java/simpledb/LockManager.java:118-129 | The new table is releaseLock's (see ReleaseLockEffect), and the invariant is kept |
| LockManagers.LockManager.ReleaseTransaction | src/java/simpledb/LockManager.java:131-142 | The two loops over all pages leave releaseTransaction's table, and the invariant is kept |
| PageCache.LoadIntoRoom | src/java/simpledb/BufferPool.java:102-105 | A miss with room adds exactly one entry and stays within capacity |
| PageCache.EvictForLoad | src/java/simpledb/BufferPool.java:106-119 | Swapping a clean victim for the new page keeps the size and every dirty page |
| PageCache.FetchedFacts | src/java/simpledb/BufferPool.java:98-122 | getPage after the lock never exceeds capacity and never drops a dirty page. It succeeds iff the page is cached, or on disk with room or a clean victim; a success leaves the page cached; a failure is DbException |
| PageCache.FlushPageEffect | src/java/simpledb/BufferPool.java:299-310 | Only a cached dirty page is written and made clean; the key set never changes |
| PageCache.CommitEffect | src/java/simpledb/BufferPool.java:314-325 | Every page tid dirtied is written and made clean; other pages, their disk contents and the key set are untouched |
| PageCache.FlushAllEffect | src/java/simpledb/BufferPool.java:272-279 | Every dirty page is written and every page is clean; the key set is kept |
| PageCache.FlushedStep | src/java/simpledb/BufferPool.java:314-325 | Flushing one more selected page extends the set of pages handled so far |
| PageCache.WrittenStep | src/java/simpledb/BufferPool.java:314-325 | The disk after one more selected page is the write of the pages handled so far |
| PageCache.AbortEffect | src/java/simpledb/BufferPool.java:173-185 | Abort fails iff a page dirtied by tid is missing from disk. Otherwise each such page becomes a clean copy of its disk bytes, and every other page and the key set are untouched |
| PageCache.AbortCleans | src/java/simpledb/BufferPool.java:173-185 | After a successful abort, no cached page carries tid's dirty tag |
| PageCache.InsertStepFacts | src/java/simpledb/BufferPool.java:209-236 | One inserted page never breaks the capacity bound. It is cached unless it failed on an empty full cache, or no clean victim exists (then nothing changes). Every dirty page other than the one replaced is kept |
| PageCache.PutAllKeys | src/java/simpledb/BufferPool.java:260-264 | Putting a list of pages adds exactly their ids to the key set |
| PageCache.PutAllCached | src/java/simpledb/BufferPool.java:260-264 | When every put page was already cached, the key set and the size are unchanged |
| PageCache.PutAllUntouched | src/java/simpledb/BufferPool.java:260-264 | A page id not in the list keeps its entry |
| PageCache.PutAllLastWins | src/java/simpledb/BufferPool.java:260-264 | A page id in the list maps to the last page with that id |
| BufferPools.MarkAll | src/java/simpledb/BufferPool.java:260-261 | Every page of the list is tagged dirty by tid, in order |
| BufferPools.BufferPool.constructor | src/java/simpledb/BufferPool.java:46-50 | Empty cache of the given capacity, with a fresh lock manager holding no locks |
| BufferPools.BufferPool.FindClean | src/java/simpledb/BufferPool.java:107-113 | The scan returns a cached clean page, and none iff every cached page is dirty |
| BufferPools.BufferPool.FlushPage | src/java/simpledb/BufferPool.java:299-310 | The new cache and disk are flushPage's (see FlushPageEffect) |
| BufferPools.BufferPool.GetPage | src/java/simpledb/BufferPool.java:81-124 | The lock table moves as grantLock's. If the lock is not granted, TransactionAborted with the cache unchanged; otherwise the page is fetched as Fetched describes (see FetchedFacts). The capacity bound and the disk are kept |
| BufferPools.BufferPool.ReleasePage | src/java/simpledb/BufferPool.java:135-139 | The lock table moves as releaseLock's |
| BufferPools.BufferPool.FlushPages | src/java/simpledb/BufferPool.java:314-325 | The new cache and disk are Commit's (see CommitEffect), including the early return on an empty cache |
| BufferPools.BufferPool.FlushAllPages | src/java/simpledb/BufferPool.java:272-279 | The new cache and disk are FlushAll's (see FlushAllEffect) |
| BufferPools.BufferPool.DiscardPage | src/java/simpledb/BufferPool.java:289-293 | pid leaves the cache and nothing is written |
| BufferPools.BufferPool.TransactionComplete | src/java/simpledb/BufferPool.java:168-189 | All of tid's locks are released. A commit is Commit's effect; an abort leaves the disk alone and installs Reload's clean copies, or fails with IllegalArgument leaving the cache unchanged |
| BufferPools.BufferPool.TransactionCommit | src/java/simpledb/BufferPool.java:146-150 | Releases tid's locks and commits |
| BufferPools.BufferPool.InsertPage | src/java/simpledb/BufferPool.java:210-236 | One page of insertTuple is handled as InsertStep says (see InsertStepFacts); the disk is not written |
| BufferPools.BufferPool.InsertTuple | src/java/simpledb/BufferPool.java:206-240 | Each returned page, tagged by tid, is handled in order as InsertStep says. It stops with NoSuchElement at the first failing step; the disk is unchanged and the capacity bound is kept |
| BufferPools.BufferPool.DeleteTuple | src/java/simpledb/BufferPool.java:255-265 | The cache becomes the old cache with every returned page, tagged by tid, put in order (see PutAllKeys, PutAllCached, PutAllLastWins) |
| HeapFiles.NumPages | src/java/simpledb/HeapFile.java:193-199 | The page count n is the floor of length / pageSize: n*pageSize <= length < (n+1)*pageSize |
| HeapFiles.ReadPageSpec | src/java/simpledb/HeapFile.java:147-182 | readPage succeeds iff 0 <= pgNo < numPages, and every failure is IllegalArgument. The page has exactly pageSize bytes, equal byte-wise to the file from pgNo*pageSize, and starts clean |
| HeapFiles.DiskOfReads | src/java/simpledb/HeapFile.java:147-182 | Reading the file through the buffer pool's disk map is readPage |
| HeapFiles.ScanFromIsFlatten | src/java/simpledb/HeapFile.java:56-73 | With no empty page from j on, scanning from page j yields all tuples of those pages in order |
| HeapFiles.ScanFromIsPrefix | src/java/simpledb/HeapFile.java:56-73 | Scanning from page j always yields a prefix of those pages' tuples |
| HeapFiles.TableScanFacts | src/java/simpledb/HeapFile.java:38-81 | A full scan yields a prefix of the table's tuples in page order, and all of them when no page after the first is empty |
| HeapFiles.HeapFileIterator.constructor | src/java/simpledb/HeapFile.java:32-35 | Starts closed, yielding nothing |
| HeapFiles.HeapFileIterator.Open | src/java/simpledb/HeapFile.java:38-52 | Positions at page 0. With no pages it fails with DbException and leaves the tuple iterator as it was; otherwise the iterator yields TableScan |
| HeapFiles.HeapFileIterator.HasNext | src/java/simpledb/HeapFile.java:56-73 | True iff something remains to yield, which is then unchanged. On an exhausted page that is not the last, it moves to the next page with a fresh cursor (even when it answers false, so a later call resumes past an empty page); otherwise index and cursor are kept. It never opens or closes the iterator |
| HeapFiles.HeapFileIterator.Next | src/java/simpledb/HeapFile.java:76-81 | Succeeds iff open with a tuple left on the current page, returning that tuple and removing it from what remains. Otherwise NoSuchElement, with nothing changed |
| HeapFiles.HeapFileIterator.Close | src/java/simpledb/HeapFile.java:90-92 | Closed, yielding nothing |
| HeapFiles.HeapFileIterator.Rewind | src/java/simpledb/HeapFile.java:84-87 | close then open: restarts at page 0 and yields TableScan again |
| TupleDescs.GetFieldName | src/java/simpledb/TupleDesc.java:136-143 | Item i's name for 0 <= i < numFields, NoSuchElement otherwise |
| TupleDescs.GetFieldType | src/java/simpledb/TupleDesc.java:155-161 | Item i's type for 0 <= i < numFields, NoSuchElement otherwise |
| TupleDescs.FromTypesAndNames | src/java/simpledb/TupleDesc.java:90-97 | numFields is the length of the type array, and item i is (typeAr[i], fieldAr[i]). A shorter name array is an index error |
| TupleDescs.FromTypes | src/java/simpledb/TupleDesc.java:107-113 | numFields is the length of the type array, and item i is (typeAr[i], null) |
| TupleDescs.FieldNameToIndex | src/java/simpledb/TupleDesc.java:172-184 | The smallest index with that name. NoSuchElement iff the name is null or no field has it |
| TupleDescs.SizeOfAppend | src/java/simpledb/TupleDesc.java:190-197 | The tuple size of concatenated items is the sum of the sizes |
| TupleDescs.SizeOfBounds | src/java/simpledb/TupleDesc.java:190-197 | The tuple size lies between 4 and 132 bytes per field |
| TupleDescs.GetSize | src/java/simpledb/TupleDesc.java:190-197 | The loop sums the field types' widths |
| TupleDescs.Merge | src/java/simpledb/TupleDesc.java:209-224 | td1's items followed by td2's; a null operand yields the other one (td1 when td2 is null) |
| TupleDescs.ConcatProperties | src/java/simpledb/TupleDesc.java:209-224 | Field counts and sizes add up; field i keeps td1's type and name, and field numFields(td1)+j keeps td2's |
| TupleDescs.SameTypesSameSize | src/java/simpledb/TupleDesc.java:235-251 | Descriptors with the same types have the same size, so equals' size test never rejects them |
| TupleDescs.SameTypesIsEquivalence | src/java/simpledb/TupleDesc.java:235-251 | Type-only equality is reflexive, symmetric and transitive |
| TupleDescs.Equals | src/java/simpledb/TupleDesc.java:235-251 | True iff the other descriptor is non-null, with the same field count and the same type at every position; names are ignored |
| Tuples.TabTerminatedCount | src/java/simpledb/Tuple.java:98-107 | Tab-terminating n tab-free strings puts exactly n tabs in the line |
| Tuples.JoinTabsShape | src/java/simpledb/Tuple.java:98-107 | Joining tab-free texts gives one tab between neighbours and none after the last text, which ends the line |
| Tuples.Tuple.constructor | src/java/simpledb/Tuple.java:28-33 | One unset slot per field of td, and no record id |
| Tuples.Tuple.SetRecordId | src/java/simpledb/Tuple.java:48-62 | getRecordId then yields r; the fields are unchanged |
| Tuples.Tuple.SetField | src/java/simpledb/Tuple.java:73-88 | getField(i) then yields f, and every other slot is unchanged |
| Tuples.Tuple.ResetTupleDesc | src/java/simpledb/Tuple.java:122-130 | Installs td, leaving numFields null slots followed by numFields IntField(0) entries |
| Tuples.Tuple.ToString | src/java/simpledb/Tuple.java:98-107 | The slots' texts joined by single tabs. An unset slot before the last is a null dereference; an unset last slot prints "null"; no slots is an index error |
| Tuples.Merge | src/java/simpledb/Tuple.java:132-144 | A fresh tuple over merge(a.td, b.td) whose field i is a's field i and whose field numFields(a)+j is b's field j |
| StringAggregators.MergeStepEffect | src/java/simpledb/StringAggregator.java:52-68 | A merge touches only its key's group. That group's count goes up by one (to 1 for a new group), and the key sits in slot 0 |
| StringAggregators.Fold | src/java/simpledb/StringAggregator.java:48-69 | Every group tuple built by merges is well formed: right width, an int count, the key in slot 0 |
| StringAggregators.FoldCounts | src/java/simpledb/StringAggregator.java:48-69 | Exactly the merged keys have a group, and each count is how often its key was merged |
| StringAggregators.GroupTuplesDistinct | src/java/simpledb/StringAggregator.java:68-82 | Distinct group keys hold distinct tuples, so the result has one tuple per distinct key |
| StringAggregators.NoGroupingSingleGroup | src/java/simpledb/StringAggregator.java:50-63 | Without grouping there is at most one group, under the null key, whose field 0 is the number of merged tuples |
| StringAggregators.KeyOf | src/java/simpledb/StringAggregator.java:50-51 | The group key (null without grouping) when both fields can be read and the aggregate field is a string; the index, null and cast errors otherwise |
| StringAggregators.StringAggregator.constructor | src/java/simpledb/StringAggregator.java:29-42 | An empty group map over the given schema |
| StringAggregators.StringAggregator.MergeTupleIntoGroup | src/java/simpledb/StringAggregator.java:48-69 | A readable tuple is merged as MergeStep on its key, keeping the map equal to the fold of all keys merged; an error changes nothing |
| StringAggregators.StringAggregator.Iterator | src/java/simpledb/StringAggregator.java:79-82 | The result tuples are exactly the group tuples, one for each merged key |
| StringAggregators.NewStringAggregator | src/java/simpledb/StringAggregator.java:29-42 | IllegalArgument iff the operator is not COUNT. The output schema is (INT) without grouping and (gbfieldtype, INT) with it |
| SeqScans.SeqScan.constructor | src/java/simpledb/SeqScan.java:38-43 | Stores tid, table id and alias, with no iterator |
| SeqScans.SeqScan.Reset | src/java/simpledb/SeqScan.java:76-80 | Replaces the table id and alias; the iterator and the (constant) transaction id stay |
| SeqScans.SeqScan.GetTupleDesc | src/java/simpledb/SeqScan.java:102-115 | The catalog schema with the same field count and types, so it equals the catalog schema; field i is named alias + "." + name(i), with null rendered "null" |
| SeqScans.SeqScan.Open | src/java/simpledb/SeqScan.java:86-90 | A fresh file iterator over the table, then opened: DbException with nothing to yield on an empty file, the table scan otherwise |
| SeqScans.SeqScan.HasNext | src/java/simpledb/SeqScan.java:117-123 | False without an iterator; otherwise true iff something remains, moving the iterator's page and cursor exactly as the iterator's hasNext does |
| SeqScans.SeqScan.Next | src/java/simpledb/SeqScan.java:125-138 | NoSuchElement without an iterator; otherwise succeeds iff the current page has a tuple left, returning it and removing it from what remains. Every failure is NoSuchElement and leaves what remains unchanged |
| SeqScans.SeqScan.Close | src/java/simpledb/SeqScan.java:140-143 | Drops the iterator, so nothing remains |
| SeqScans.SeqScan.Rewind | src/java/simpledb/SeqScan.java:145-149 | NullPointer without an iterator; otherwise the iterator's rewind |

## Left out

- Threads: `Thread.sleep`, `InterruptedException`, `synchronized` and the concurrent-collection semantics. The lock wait is a bounded sequential loop against one lock-table state, so the interrupt path of getPage is not modelled.
- File I/O: the file is a byte sequence, and the page size is a parameter (`getPageSize`/`setPageSize`/`resetPageSize` are not part of this model).
- The HeapPage layout and its tuple iterator are not part of this model: a page is given as the tuples it yields.
- Stub methods with no behaviour: `HeapFile.writePage`, `HeapFile.insertTuple`/`deleteTuple`, `BufferPool.holdsLock` (always false) and `BufferPool.evictPage` (empty).
  - The pages a file returns for an insertion or deletion are a parameter.
  - A flush writes a page's bytes into the disk map, which is what the file interface promises. In this repository `HeapFile.writePage` writes nothing.
- `hashCode` values: the lock priority is an abstract integer key per transaction. `HeapFile.getId` and `TupleDesc.hashCode` are not part of this model.
- TupleDesc `clone`, `iterator` and `toString`, Tuple `fields()`, `HeapFile.getFile`/`getTupleDesc`, and Serializable plumbing.
- Type.java, Field.java, Aggregator.java, Catalog and Database are not part of this model. The field widths, `Aggregator.Op` and `NO_GROUPING` are restated in `Common` and `StringAggregators`.
- Table.java is not part of this model; it holds no logic.
- Java's 32-bit `int` arithmetic: counters, offsets and counts are unbounded integers, so overflow of `num`, of the retry counter or of a group count is not modelled.
- Object identity and aliasing: pages and group tuples are values, so a page object shared between the cache and a caller, or a group tuple mutated after `iterator()`, is not captured.
- The iteration order of the page map: eviction picks any clean page, where the code picks the first in hash order.
- `getPage` wraps every failure after the lock into one DbException; the model has one failure outcome for it.
- `HeapFileIterator` reads pages through the buffer pool. The model takes the table's pages as given, so lock and cache failures during a scan are not modelled.
- SeqScan's second constructor and `getTableName`: both read the table name from the catalog.
- SeqScans.SeqScan.Next: the null-tuple branch is not modelled, because the file iterator never yields null.
- BufferPools.BufferPool.DeleteTuple: the local `pages.remove(...)` on the returned list is a no-op and is left out; a tuple with a null record id (a null dereference before any change) is not modelled.
- StringAggregators.NewStringAggregator: a null `gbfieldtype` with grouping is not modelled (the type is always given).
- HeapFiles.NumPages requires a positive page size; the floating-point division of the code is modelled as integer division.
- BufferPools.BufferPool.InsertPage: when the cache is full and every page is dirty, the code flushes the new page's id, which is not cached, so the page is neither cached nor written. The method's comment promises that every dirtied page is cached; in this case the code neither caches nor writes it, so the insertion is lost. The model follows the code.
- Tuples.Tuple.GetField and Tuples.Tuple.SetField require a valid index, as their comments demand; the IndexOutOfBoundsException the list throws outside that range is not modelled.
