# Verified models of the low-level parts of BADNET

A Dafny model of five components of the relay's C and Python code, with proofs of what
they promise.  `dafny verify dfyconfig.toml` checks everything.

* **The page and chunk allocator** (`ext/OpenBSD_malloc_Linux.c`).  `PageDirectory` is the
  list of directory pages with its two cached pointers; `FreeList` the address-sorted,
  coalescing list of free runs; `Bitmap` and `ChunkPool` the pages of power-of-two chunks;
  `Blocks` says which addresses are blocks in use, read off the directory and the bitmaps;
  `Allocator` has malloc_pages, free_pages, malloc_make_chunks, malloc_bytes, free_bytes,
  imalloc, ifree and irealloc over one state with one invariant, `Sound`; `Malloc` is the
  interface, and collects what holds in every reachable state.
* **The intrusive hash table** (`ext/ht.h`).  `Chains` is about chains in memory, shared with
  the chunk lists; `HashTable` has the table as a class that refines a finite map, with both
  rehashes, iteration and removal during iteration, and `Play` runs any sequence of calls on it.
* **The wire codecs** (`trunnel`).  `Wire` has formats as values, built from combinators, with
  three laws: encode-then-parse, parse-then-encode, and verdicts that appended bytes do not
  change.  `CertFormats`, `LinkFormats` and `SocksFormats` are the formats; `Cursor`,
  `CertCodecs`, `HandshakeCodecs`, `NetinfoCodecs` and `SocksCodecs` are the encoders and
  parsers in their own style, over an output array with lengths written back, proved against
  the formats; `RoundTrips` puts each parser and its encoder together; `Layouts` says byte by
  byte what each message looks like.
* **Tail queues** (`ext/tor_queue.h`).  `TailQueue` models a pointer to a pointer as a place,
  and the cast in LAST and PREV as reading the pointer beside it.
* **Two small algorithms.**  `Includes` has the closure and the level sort of `includes.py`,
  `SipHash` the block loop and tail switch of `csiphash.c` on 64-bit machine words, with two
  of the test vectors.

Memory is explicit: a C structure that is pointed at is an entry of a map from addresses, so
that aliasing, links and freed structures are all in the model.  Ghost parameters and results
carry what the memory stands for.  What a system call or an outer allocator answers is a
parameter, and its precondition is what the call promises: mmap returns pages and directory
pages that nobody uses, and requests for holders and records return unused addresses or null.

Where comments and code differ, the model follows the code:

* the nested conditional at lines 312-317 of the allocator does not compare distances
  (`PageDirectory.PrefersLastAlways`);
* the loop under "Insert in address order" at lines 1759-1762 keeps address order only when the
  list is empty or the new page comes first (`ChunkPool.OrderKeptIff`, `ChunkPool.OrderLost`);
* the comment at lines 1583-1586 says that a trimmed entry keeps at least one page; it keeps none
  exactly when the list was at malloc_cache already and no entry touches the freed run
  (`FreeList.TrimBounds`, `FreeList.CutToNothing`, `Allocator.FreePages`);
* the loop that picks a prime tests its index after it has used it, so it reads past the table of
  primes when the last load limit does not exceed the size (`HashTable.PickPrime`); an insertion
  gets there exactly when `HashTable.CanGrow` fails, which takes refused growths
  (`HashTable.CanGrowExact`, `HashTable.CannotGrow`, `HashTable.WithinLoadCanGrow`);
* the docstring of toposort says that what is left contains a cycle; that is so exactly when the
  limit was large enough (`Includes.LeftIffLongChain`, `Includes.LeftIffCycle`,
  `Includes.ChainLeftOver`).

## Model

| member | source | states |
|---|---|---|
| `PageDirectory.Lookup` | BADNET/src/ext/OpenBSD_malloc_Linux.c:302-344 | whatever last_dir and prev_dir hold, as long as each is null or on the list, the directory found is the one a linear scan of the sorted list finds (`Scan`), and the return value is 0 exactly when it is the right one |
| `PageDirectory.PrefersLastAlways` | BADNET/src/ext/OpenBSD_malloc_Linux.c:312-317 | the nested conditional at the cached pair always picks last_dir, so it does not choose the nearer directory |
| `PageDirectory.Decode` | BADNET/src/ext/OpenBSD_malloc_Linux.c:827-833 | a packed dirnum decodes to the directory index and the exact count of its pages, with the 12 bucket slots in the first |
| `PageDirectory.DirectoryInsert` | BADNET/src/ext/OpenBSD_malloc_Linux.c:613-629 | a directory page linked in after its predecessor keeps the list linked both ways, strictly sorted, and every dirnum and entry as it was |
| `PageDirectory.DirectoryDelete` | BADNET/src/ext/OpenBSD_malloc_Linux.c:1630-1639 | unlinking a directory without pages keeps the list, its order, every other dirnum and every entry |
| `PageDirectory.MapPages` | BADNET/src/ext/OpenBSD_malloc_Linux.c:559-660 | a run that mmap placed anywhere free is counted into all the directories it touches, which are made where missing; cached pointers and the sorted order survive; it fails only when directory pages are needed and refused, and then changes nothing |
| `PageDirectory.MapLoop` | BADNET/src/ext/OpenBSD_malloc_Linux.c:611-654 | the loop over directories takes the directory pages it uses from the front of the region, no more of them than were asked for, and counts exactly the pages of the run |
| `PageDirectory.MarkRun` | BADNET/src/ext/OpenBSD_malloc_Linux.c:982-999 | the run is painted First, Follow, Follow, ... across directory boundaries and no other entry changes |
| `PageDirectory.ReleaseRun` | BADNET/src/ext/OpenBSD_malloc_Linux.c:1452-1474 | scanning First Follow* recovers exactly the length that was handed out, marks those pages Free and touches nothing else |
| `PageDirectory.CountRun` | BADNET/src/ext/OpenBSD_malloc_Linux.c:1343-1362 | the read-only scan of irealloc returns the length that was handed out |
| `PageDirectory.WalkTo` | BADNET/src/ext/OpenBSD_malloc_Linux.c:1600-1602 | the walk along the list from an entry's directory arrives at the directory of the page looked for |
| `PageDirectory.ReapDir` | BADNET/src/ext/OpenBSD_malloc_Linux.c:1630-1659 | a directory page is unlinked and unmapped if and only if it is not the first and no page is left in it |
| `PageDirectory.Trim` | BADNET/src/ext/OpenBSD_malloc_Linux.c:1600-1660 | giving back [index, end) removes exactly those pages, every directory but the first that is left still has a page, and no directory changes its index |
| `PageDirectory.Survives` | BADNET/src/ext/OpenBSD_malloc_Linux.c:1600-1660 | a directory that still has a page is still on the list after a trim |
| `FreeList.FirstFit` | BADNET/src/ext/OpenBSD_malloc_Linux.c:863-915 | the entry found is the first one large enough, and null means that none is |
| `FreeList.FindSpot` | BADNET/src/ext/OpenBSD_malloc_Linux.c:1520-1525 | every entry before the one where the race stops ends strictly before the freed run |
| `FreeList.SumFrom` | BADNET/src/ext/OpenBSD_malloc_Linux.c:1527-1532 | the loop that finishes the calculation adds up the rest of the list |
| `FreeList.Place` | BADNET/src/ext/OpenBSD_malloc_Linux.c:1507-1573 | the list stays address-sorted, disjoint and fully coalesced with exactly the freed pages added, in every insertion case; the branch that reports a destroyed freelist is never taken; the cached total over-counts by no more than the collapse case |
| `FreeList.Extend` | BADNET/src/ext/OpenBSD_malloc_Linux.c:1542-1554 | appending to an entry, and collapsing the next one when the three touch |
| `FreeList.Collapse` | BADNET/src/ext/OpenBSD_malloc_Linux.c:1546-1554 | the collapsed entry's pages join the one before it, its holder comes loose, and its size stays in the count: the count is too large by exactly that size |
| `FreeList.Prepend` | BADNET/src/ext/OpenBSD_malloc_Linux.c:1555-1560 | prepending to an entry moves its start and its directory |
| `FreeList.TrimBounds` | BADNET/src/ext/OpenBSD_malloc_Linux.c:1581-1592 | malloc_cache - cachesize does not wrap, keeping that much keeps the list within the cache, and it is nothing if and only if the list was at malloc_cache already and no entry ends where the run starts or starts where it ends |
| `FreeList.CutToNothing` | BADNET/src/ext/OpenBSD_malloc_Linux.c:1583-1586 | against the comment: with one page listed and a cache of one page, nothing of another page that is freed may stay |
| `FreeList.RemovedDelete` | BADNET/src/ext/OpenBSD_malloc_Linux.c:917-925 | taking a whole entry off the list removes its pages and no others |
| `FreeList.RemovedPart` | BADNET/src/ext/OpenBSD_malloc_Linux.c:926-928 | cutting pages off one end of an entry removes those pages and no others and keeps the list tidy |
| `Bitmap.FindFree` | BADNET/src/ext/OpenBSD_malloc_Linux.c:1177-1186 | the position found is set, valid, and the lowest one, whatever junk the bits past the last chunk hold |
| `Bitmap.CountPut` | BADNET/src/ext/OpenBSD_malloc_Linux.c:1211-1214 | setting or clearing one valid bit changes the number of set valid bits by one |
| `ChunkPool.Layout` | BADNET/src/ext/OpenBSD_malloc_Linux.c:1052-1066 | for every chunk size the bitmap has room for all chunks and at least two chunks remain after the page's own record |
| `ChunkPool.Capacities` | BADNET/src/ext/OpenBSD_malloc_Linux.c:1052-1066 | in numbers: how many chunks a page of each size has, how long its record is, and how many chunks the record takes |
| `ChunkPool.InitBits` | BADNET/src/ext/OpenBSD_malloc_Linux.c:1098-1118 | from words with arbitrary contents, exactly the chunks not taken by the record become free, and free == total == their number |
| `ChunkPool.AddPage` | BADNET/src/ext/OpenBSD_malloc_Linux.c:1076-1138 | the new page is at the head of its list and has every chunk free |
| `ChunkPool.TakeChunk` | BADNET/src/ext/OpenBSD_malloc_Linux.c:1175-1220 | the lowest free chunk of the first page is taken; a page without free chunks leaves its list |
| `ChunkPool.ReturnChunk` | BADNET/src/ext/OpenBSD_malloc_Linux.c:1748-1781 | the bit is set; a page that had none free joins its list, and a page leaves it for good exactly when no other chunk of it is live |
| `ChunkPool.FindPlace` | BADNET/src/ext/OpenBSD_malloc_Linux.c:1759-1762 | every page that the loop steps to lies before the new one, and the next one does not |
| `ChunkPool.OrderKeptIff` | BADNET/src/ext/OpenBSD_malloc_Linux.c:1757-1765 | for a list in address order: it stays in order if and only if it was empty or the new page comes before all of it |
| `ChunkPool.OrderLost` | BADNET/src/ext/OpenBSD_malloc_Linux.c:1757-1765 | pages 1 and 2 are listed and page 3 becomes non-full: the list becomes 1, 3, 2 |
| `ChunkPool.Enqueue` | BADNET/src/ext/OpenBSD_malloc_Linux.c:1754-1767 | a page that became non-full joins its list, and keeps it in address order exactly as above |
| `ChunkPool.FreeIsTotal` | BADNET/src/ext/OpenBSD_malloc_Linux.c:1767-1768 | free never exceeds total, and equals it exactly when no chunk is live |
| `ChunkPool.FindBucket` | BADNET/src/ext/OpenBSD_malloc_Linux.c:1155-1169 | the bucket is the smallest one whose chunks hold the request |
| `ChunkPool.GoodSize` | BADNET/src/ext/OpenBSD_malloc_Linux.c:2030-2047 | 1 for 0, up to half a page the least power of two from 2 up that holds the request, above that the least whole number of pages; asking for it instead needs the same bucket or the same pages |
| `Blocks.Disjoint` | BADNET/src/ext/OpenBSD_malloc_Linux.c:849-1029 | two different blocks in use never overlap |
| `Blocks.Marked` | BADNET/src/ext/OpenBSD_malloc_Linux.c:982-999 | handing out unused pages adds one block and leaves every other one as it was |
| `Blocks.ReleasedBlock` | BADNET/src/ext/OpenBSD_malloc_Linux.c:1452-1472 | marking a run Free removes its block and leaves every other one as it was |
| `Blocks.TrimmedPages` | BADNET/src/ext/OpenBSD_malloc_Linux.c:1608-1619 | unmapping Free pages leaves every block as it was |
| `Blocks.BecomesChunks` | BADNET/src/ext/OpenBSD_malloc_Linux.c:1121-1138 | a one-page run turned into chunks is no block any more, and no chunk of it is one yet |
| `Blocks.BecomesRun` | BADNET/src/ext/OpenBSD_malloc_Linux.c:1783-1798 | a page without live chunks turned back into a run disturbs no block |
| `Blocks.ChunkMoved` | BADNET/src/ext/OpenBSD_malloc_Linux.c:1211-1225 | taking or returning a chunk adds or removes exactly the block at its address |
| `Allocator.TakeRun` | BADNET/src/ext/OpenBSD_malloc_Linux.c:863-942 | the pages come from the start of the first entry that is large enough, whole or split; they and no others leave the free list, the rest keeps the right directory, and null means that no entry was large enough |
| `Allocator.MallocPages` | BADNET/src/ext/OpenBSD_malloc_Linux.c:849-1029 | null if and only if no entry is large enough and the system refuses pages or directory pages, and then nothing changed; otherwise one new block of the pages asked for, the start of the first entry that fits or else what mmap gave; every invariant is kept |
| `Allocator.Reclaim` | BADNET/src/ext/OpenBSD_malloc_Linux.c:1439-1474 | the run that free_pages releases is the one that was handed out, and it is on no list |
| `Allocator.FileRun` | BADNET/src/ext/OpenBSD_malloc_Linux.c:1503-1711 | filing the run, trimming to malloc_cache and reaping directories keep every invariant and every block; everything is kept if it fits in malloc_cache and otherwise as much as fits, short by exactly the size of a collapsed entry |
| `Allocator.TrimDirs` | BADNET/src/ext/OpenBSD_malloc_Linux.c:1594-1660 | after a trim, prev_dir is null or still on the list |
| `Allocator.KeepPart` | BADNET/src/ext/OpenBSD_malloc_Linux.c:1581-1594 | an entry trimmed to a positive size keeps its directory, and the list is within malloc_cache |
| `Allocator.KeepNone` | BADNET/src/ext/OpenBSD_malloc_Linux.c:1668-1710 | when an entry is trimmed to nothing px was null, its holder becomes px and leaves the list, last_dir becomes prev_dir and prev_dir null, and all that is left is sound |
| `Allocator.FreePages` | BADNET/src/ext/OpenBSD_malloc_Linux.c:1418-1713 | the block is gone and nothing else is; the number of pages released is the number handed out; they go on the list or to the system by the policy above, and are lost only when there is no holder for them; the entry they joined keeps a page unless the list was at malloc_cache already and no entry touched them |
| `Allocator.MakeChunks` | BADNET/src/ext/OpenBSD_malloc_Linux.c:1035-1143 | it succeeds if and only if a page could be had and, for a size whose record does not go in the page, a record; then the new page heads the list of that size, and otherwise the lists did not change; no block was gained or lost |
| `Allocator.MallocBytes` | BADNET/src/ext/OpenBSD_malloc_Linux.c:1148-1226 | null if and only if no page of the best size has a free chunk and none could be made, and then no change of blocks; otherwise one new block in the smallest chunk that holds the request, on a page that was there if one had room |
| `Allocator.IMalloc` | BADNET/src/ext/OpenBSD_malloc_Linux.c:1239-1275 | as malloc_bytes or malloc_pages; null if and only if the request is within a page of SIZE_MAX, or what it needs is neither in stock nor granted |
| `Allocator.NotRefused` | BADNET/src/ext/OpenBSD_malloc_Linux.c:1239-1275 | a request that is not within a page of SIZE_MAX is answered whenever the system gives pages, directory pages and records |
| `Allocator.FreeBytes` | BADNET/src/ext/OpenBSD_malloc_Linux.c:1723-1808 | a live chunk is no block any more; its page stays a page of chunks if another block is on it, and otherwise its record is gone and the page went on the free list or to the system; a misaligned or free chunk changes nothing |
| `Allocator.AdminBreaks` | BADNET/src/ext/OpenBSD_malloc_Linux.c:1734-1745 | why pointers into a record are left out: to free_bytes a chunk under a page's own record looks like a live one, and marking it free breaks the record |
| `Allocator.IFree` | BADNET/src/ext/OpenBSD_malloc_Linux.c:1810-1870 | for any address in a page of the directory, other than a page's own record, exactly the block at that address is gone, its pages went back if it was a run or the last chunk of its page, and without a block no page changes |
| `Allocator.Measure` | BADNET/src/ext/OpenBSD_malloc_Linux.c:1310-1396 | whether irealloc takes the pointer for a block (it is one, or points into a page's own record), and how many bytes the block can hold |
| `Allocator.StaysIffSuits` | BADNET/src/ext/OpenBSD_malloc_Linux.c:1364-1396 | the source's size tests, for any block, amount to this: a run stays exactly when the request rounds up to its pages, a chunk exactly when the best chunk for the request is of its size, and for size 0 only a 16-byte chunk stays |
| `Allocator.IRealloc` | BADNET/src/ext/OpenBSD_malloc_Linux.c:1280-1412 | the block stays exactly when a fresh request would get one of that size (`Suits`); null exactly when the pointer is no block, or it cannot stay and a new block is refused, and then nothing changed; otherwise a new one was got and the old one given back |
| `MallocApi.FirstSound` | BADNET/src/ext/OpenBSD_malloc_Linux.c:819-841 | the state that malloc_init sets up has every invariant |
| `MallocApi.BlocksDisjoint` | BADNET/src/ext/OpenBSD_malloc_Linux.c:1148-1226 | in every reachable state blocks in use are pairwise disjoint and each is at least as large as what was asked for |
| `MallocApi.BlocksOffList` | BADNET/src/ext/OpenBSD_malloc_Linux.c:863-942 | in every reachable state no block overlaps a page on the free list |
| `MallocApi.FreeListOK` | BADNET/src/ext/OpenBSD_malloc_Linux.c:1507-1592 | a summary of what Alloc, Release and Resize preserve: the free list is sorted, disjoint and coalesced, of pages marked Free, its total within malloc_cache, and neither cached directory pointer dangles; unless a holder was refused it holds every page marked Free |
| `MallocApi.PagesInUse` | BADNET/src/ext/OpenBSD_malloc_Linux.c:849-1029 | in every reachable state each owned page is on the free list, a page of chunks, inside a block, or was lost for want of a holder |
| `MallocApi.ChunkPagesInUse` | BADNET/src/ext/OpenBSD_malloc_Linux.c:1767-1807 | in every reachable state each page of chunks holds a live chunk: a page that lost its last one was given back |
| `MallocApi.DirnumsExact` | BADNET/src/ext/OpenBSD_malloc_Linux.c:611-654 | in every reachable state each dirnum is the index and the exact number of entries that are not NotMine, indices strictly rise, and no directory but the first is empty |
| `MallocApi.ChunkListsExact` | BADNET/src/ext/OpenBSD_malloc_Linux.c:1748-1781 | a summary of what Alloc, Release and Resize preserve: the list of a size holds exactly once each page of that size with a free chunk, and free is the number of set valid bits |
| `MallocApi.Malloc.constructor` | BADNET/src/ext/OpenBSD_malloc_Linux.c:819-841 | the initial state is valid and has no block |
| `MallocApi.Malloc.Alloc` | BADNET/src/ext/OpenBSD_malloc_Linux.c:1239-1275 | malloc keeps the invariant; null exactly as imalloc, and no change; otherwise one new block from where imalloc takes it |
| `MallocApi.Malloc.Release` | BADNET/src/ext/OpenBSD_malloc_Linux.c:1810-1870 | free keeps the invariant; exactly that block is gone, and its pages went back as in ifree |
| `MallocApi.Malloc.Resize` | BADNET/src/ext/OpenBSD_malloc_Linux.c:1280-1412 | realloc keeps the invariant; the block stays, moves, or nothing changed, each exactly as in irealloc, and for a null pointer as malloc |
| `HashTable.PickPrime` | BADNET/src/ext/ht.h:451-456 | the prime found is the first after the current one whose load limit exceeds the size; the loop reads past the prime table if and only if the last prime's load limit does not |
| `HashTable.LoadLimitExact` | BADNET/src/ext/ht.h:454 | the load limit is six tenths of the length, rounded down |
| `HashTable.NeverOnTheLimit` | BADNET/src/ext/ht.h:428-437 | no size is a multiple of five, so six tenths of it is never an integer |
| `HashTable.RehashFresh` | BADNET/src/ext/ht.h:457-474 | every node, and no other, is on the chain of its hash modulo the new length |
| `HashTable.RehashInPlace` | BADNET/src/ext/ht.h:476-494 | the in-place rehash terminates with the same result, though it moves nodes to buckets both behind and ahead of it |
| `HashTable.LimitsRise` | BADNET/src/ext/ht.h:428-437 | consecutive load limits differ by more than one, so a single insertion needs at most one step |
| `HashTable.WithinLoadCanGrow` | BADNET/src/ext/ht.h:284-286 | a table within its load can always be grown for one more entry without running off the prime table |
| `HashTable.CanGrowExact` | BADNET/src/ext/ht.h:284-286 | `CanGrow` is exactly when an insertion stays inside the prime table |
| `HashTable.CannotGrow` | BADNET/src/ext/ht.h:451-456 | a head at which it does not: 53 buckets, every later growth refused, and as many elements as the last load limit |
| `HashTable.FlattenComplete` | BADNET/src/ext/ht.h:358-400 | read bucket by bucket, the chains hold every element of the map exactly once |
| `HashTable.Table.constructor` | BADNET/src/ext/ht.h:244-250 | an empty table stands for the empty map and is within its load, whatever the links of the elements hold |
| `HashTable.Table.FindP` | BADNET/src/ext/ht.h:251-266 | the slot returned points at the element with that key, or at the end of its chain |
| `HashTable.Table.Find` | BADNET/src/ext/ht.h:267-277 | the element of the map with that key, or null |
| `HashTable.Table.Grow` | BADNET/src/ext/ht.h:438-500 | a growth keeps the map and every element, touches no link outside the table, and advances to the prime picked; when both allocations fail, or nothing is to be done, the head is unchanged; it overruns the prime table exactly as PickPrime does |
| `HashTable.Table.MakeRoom` | BADNET/src/ext/ht.h:284-286 | the growth triggered by an insertion advances at most one prime and restores the load limit; there is no table afterwards only if there was none and both allocations failed; it overruns the prime table exactly when `CanGrow` fails |
| `HashTable.Table.InsertNew` | BADNET/src/ext/ht.h:278-291 | inserting a new key adds exactly that entry to the map; no link outside the table changes, and a table within its load stays so |
| `HashTable.Table.Replace` | BADNET/src/ext/ht.h:292-314 | the entry for the key is replaced or added, and the old element comes back unlinked; no link outside the table changes, and a table within its load stays so |
| `HashTable.Table.Remove` | BADNET/src/ext/ht.h:315-330 | the entry is gone and the element comes back unlinked; null if there was none; prime, load limit and the links outside the table stay |
| `HashTable.Table.FindOrInsert` | BADNET/src/ext/ht.h:567-589 | the existing element, or the new one added; no link outside the table changes, and a table within its load stays so |
| `HashTable.Table.Enumerate` | BADNET/src/ext/ht.h:358-400 | HT_START and HT_NEXT visit every element exactly once, n_entries of them |
| `HashTable.Table.NextRmv` | BADNET/src/ext/ht.h:401-420 | the element under the cursor is gone from the map and the cursor is at its successor |
| `HashTable.Table.Sweep` | BADNET/src/ext/ht.h:401-420 | a pass with HT_NEXT_RMV leaves exactly the elements not chosen; prime, load limit and the links outside the table stay |
| `HashTable.Table.ForeachFn` | BADNET/src/ext/ht.h:331-357 | HT_FOREACH_FN leaves exactly the elements for which the function answered 0; prime, load limit and the links outside the table stay |
| `HashTable.Table.RepIsBad` | BADNET/src/ext/ht.h:511-546 | in every valid state the result is 0, or 3 exactly when the load limit is exceeded; within its load it is 0 if and only if the elements do not exceed the last prime's limit |
| `HashTable.Table.Play` | BADNET/src/ext/ht.h:511-546 | any run of insertions, replacements, lookups, removals and removing passes keeps the table the map that the calls describe, and HT_REP_IS_BAD_ after each call answers 0 if and only if there are no more elements than the last prime's load limit |
| `Wire.PrefixTruncated` | BADNET/src/trunnel/ed25519_cert.c:24-29 | for every self-delimiting format, each proper prefix of an accepted message is reported as truncated |
| `Wire.PrefixFree` | BADNET/src/trunnel/ed25519_cert.c:24-29 | no encoding is a proper prefix of another, and equal encodings come from equal values |
| `Wire.UniqueSplit` | BADNET/src/trunnel/ed25519_cert.c:2045-2055 | a concatenation of messages splits in only one way |
| `Wire.NormalIdempotent` | BADNET/src/trunnel/netinfo.c:288-346 | for the formats that skip payloads, parse-then-encode always parses again to the same retained fields, and normalising again changes no byte |
| `Wire.SizedLawful` | BADNET/src/trunnel/ed25519_cert.c:1490-1556 | a length field and a window that must be filled exactly: running short inside is invalid, not truncated |
| `Wire.RepLawful` | BADNET/src/trunnel/ed25519_cert.c:2041-2056 | an array of self-delimiting elements is self-delimiting, and exact if they are |
| `Wire.NulStringLawful` | BADNET/src/trunnel/socks5.c:1373-1387 | NUL-terminated strings are self-delimiting and exact |
| `Wire.AllButLawful` | BADNET/src/trunnel/pwbox.c:513-533 | a field that takes everything but the last n bytes, and those |
| `CertFormats.LinkSpecifierLawful` | BADNET/src/trunnel/ed25519_cert.c:1329-1564 | link_specifier: encode then parse gives the value back whatever follows, parse then encode reproduces the bytes used, and verdicts other than truncated survive appended bytes |
| `CertFormats.Create2Lawful` | BADNET/src/trunnel/ed25519_cert.c:188-293 | the same for create2_cell_body |
| `CertFormats.ExtensionLawful` | BADNET/src/trunnel/ed25519_cert.c:522-692 | the same for ed25519_cert_extension |
| `CertFormats.CertLawful` | BADNET/src/trunnel/ed25519_cert.c:1894-2071 | the same for ed25519_cert |
| `CertFormats.Extend2Lawful` | BADNET/src/trunnel/ed25519_cert.c:2293-2408 | the same for link_specifier_list and extend2_cell_body |
| `LinkFormats.AuthChallengeLawful` | BADNET/src/trunnel/link_handshake.c:213-321 | the same for auth_challenge_cell |
| `LinkFormats.CertsCellLawful` | BADNET/src/trunnel/link_handshake.c:1946-2046 | the same for certs_cell and certs_cell_cert |
| `LinkFormats.RsaEdCrosscertLawful` | BADNET/src/trunnel/link_handshake.c:850-965 | the same for rsa_ed_crosscert |
| `LinkFormats.Auth1Lawful` | BADNET/src/trunnel/link_handshake.c:1526-1757 | auth1 takes all its input; within that, parsing and encoding undo each other for each context |
| `LinkFormats.PwboxLawful` | BADNET/src/trunnel/pwbox.c:358-544 | pwbox_encoded takes all its input; within that, parsing and encoding undo each other |
| `LinkFormats.NetinfoCellLawful` | BADNET/src/trunnel/netinfo.c:582-708 | netinfo_cell is self-delimiting, encode then parse gives the value back, and parsed values can be encoded |
| `LinkFormats.SendmeLawful` | BADNET/src/trunnel/sendme_cell.c:183-332 | the same for sendme_cell |
| `SocksFormats.Socks4Lawful` | BADNET/src/trunnel/socks5.c:985-1675 | SOCKS 4 requests, with the host name of 4a: self-delimiting, and parsing and encoding undo each other |
| `SocksFormats.ClientVersionLawful` | BADNET/src/trunnel/socks5.c:2526-2633 | the same for socks5_client_version |
| `SocksFormats.UserPassLawful` | BADNET/src/trunnel/socks5.c:2213-2346 | the same for socks5_client_userpass_auth |
| `SocksFormats.MessageLawful` | BADNET/src/trunnel/socks5.c:3292-3493 | the same for socks5_client_request and socks5_server_reply |
| `Layouts.Ipv4Layout` | BADNET/src/trunnel/ed25519_cert.c:1369-1384 | an IPv4 specifier is 00 06, the address and the port, most significant byte first |
| `Layouts.Ipv6Layout` | BADNET/src/trunnel/ed25519_cert.c:1386-1401 | an IPv6 specifier is 01 12, the sixteen bytes and the port |
| `Layouts.IdLayouts` | BADNET/src/trunnel/ed25519_cert.c:1403-1419 | the identity specifiers are 02 14 and twenty bytes, 03 20 and thirty-two bytes |
| `Layouts.OtherSpecLayout` | BADNET/src/trunnel/ed25519_cert.c:1423-1434 | a specifier of another type is the type, the length and the bytes |
| `Layouts.SpecListLayout` | BADNET/src/trunnel/ed25519_cert.c:2597-2656 | a list of specifiers is their number and the specifiers |
| `Layouts.Create2Layout` | BADNET/src/trunnel/ed25519_cert.c:188-253 | create2 is two bytes of type, two of length and the data |
| `Layouts.Extend2Layout` | BADNET/src/trunnel/ed25519_cert.c:2293-2359 | extend2 is the counted specifiers and a create2 |
| `Layouts.ExtensionLayout` | BADNET/src/trunnel/ed25519_cert.c:522-625 | an extension is two bytes of length, type, flags and data; type 4 has a key of 32 bytes |
| `Layouts.CertLayout` | BADNET/src/trunnel/ed25519_cert.c:1894-1995 | a certificate is version 1, type, expiration, key type, key, the counted extensions and the signature |
| `Layouts.ChallengeLayout` | BADNET/src/trunnel/link_handshake.c:213-279 | auth_challenge is 32 bytes, two of count and the methods |
| `Layouts.CellCertLayout` | BADNET/src/trunnel/link_handshake.c:2010-2046 | a cert of a certs cell is its type, two bytes of length and the body |
| `Layouts.CertsCellLayout` | BADNET/src/trunnel/link_handshake.c:1946-2005 | a certs cell is a byte of count and the certs |
| `Layouts.CrosscertLayout` | BADNET/src/trunnel/link_handshake.c:850-965 | rsa_ed_crosscert is the key, four bytes of expiration, a byte of length and the signature |
| `Layouts.Auth1Layout` | BADNET/src/trunnel/link_handshake.c:1526-1661 | auth1 without Ed25519 identities: the order and sizes of its fields |
| `Layouts.Auth1EdLayout` | BADNET/src/trunnel/link_handshake.c:1526-1661 | auth1 with Ed25519 identities: these follow the RSA ones |
| `Layouts.PwboxLayout` | BADNET/src/trunnel/pwbox.h:11-12 | pwbox starts with TORBOX00; then a byte of length, header, iv, data and hmac |
| `Layouts.V4Layout` | BADNET/src/trunnel/netinfo.h:11 | an IPv4 address of netinfo is 04 04 and four bytes |
| `Layouts.V6Layout` | BADNET/src/trunnel/netinfo.h:12 | an IPv6 address of netinfo is 06 10 and sixteen bytes |
| `Layouts.UnknownLayout` | BADNET/src/trunnel/netinfo.c:189-283 | an address of another type is written as its type and 00 |
| `Layouts.NetinfoLayout` | BADNET/src/trunnel/netinfo.c:582-654 | netinfo is a timestamp, one address, a count and the addresses |
| `Layouts.Sendme0Layout` | BADNET/src/trunnel/sendme_cell.c:183-270 | a sendme of version 0 is 00 00 00 |
| `Layouts.Sendme1Layout` | BADNET/src/trunnel/sendme_cell.c:183-270 | a sendme of version 1 is 01 00 14 and the digest |
| `Layouts.Socks4Layout` | BADNET/src/trunnel/socks5.c:985-1337 | a SOCKS 4 request is 04, the command, port, address and user name with its NUL; for 0.0.0.1 to 0.0.0.255 the host name with its NUL follows |
| `Layouts.VersionLayout` | BADNET/src/trunnel/socks5.c:2526-2591 | a SOCKS 5 greeting is 05, the count and the methods |
| `Layouts.UserPassLayout` | BADNET/src/trunnel/socks5.c:2213-2297 | a login is 01 and two strings with their lengths |
| `Layouts.AddressLayout` | BADNET/src/trunnel/socks5.h:16-18 | the address types of SOCKS 5 are 01, 04 and 03, the last with a length |
| `Layouts.MessageLayouts` | BADNET/src/trunnel/socks5.h:11-15 | requests and replies are 05, the code, 00, the address and the port; the commands are 1, 2, 3, f0 and f1 |
| `Cursor.PutSized` | BADNET/src/trunnel/ed25519_cert.c:1353-1444 | fields, a stale length that is written back, and the union: -2 when it does not fit, -1 exactly when it fits but the length field cannot hold the length, else the whole encoding |
| `Cursor.PutFields` | BADNET/src/trunnel/link_handshake.c:1543-1638 | consecutive fields, each tested for room: exactly the length when all fit and -2 otherwise |
| `CertCodecs.EncodeLinkSpecifier` | BADNET/src/trunnel/ed25519_cert.c:1329-1468 | returns the length of the encoding exactly when it fits, -2 when it does not, -1 when the arm is too long for ls_len; the stale ls_len does not matter |
| `CertCodecs.ParseLinkSpecifier` | BADNET/src/trunnel/ed25519_cert.c:1473-1564 | the three verdicts and the object are those of the format |
| `CertCodecs.SpecEncodedLen` | BADNET/src/trunnel/ed25519_cert.c:1268-1320 | the predicted length is the length of the encoding |
| `CertCodecs.EncodeSpecList` | BADNET/src/trunnel/ed25519_cert.c:2597-2656 | through the nested array: the length exactly when it fits, -2 otherwise; -1 with nothing written when the count is wrong, negative when an element does not fit its length field |
| `CertCodecs.ParseSpecList` | BADNET/src/trunnel/ed25519_cert.c:2662-2700 | the three verdicts, the count and the elements are those of the format |
| `CertCodecs.EncodeCreate2` | BADNET/src/trunnel/ed25519_cert.c:188-253 | the length exactly when it fits, -2 otherwise; -1 with nothing written when handshake_len is wrong |
| `CertCodecs.ParseCreate2` | BADNET/src/trunnel/ed25519_cert.c:259-293 | the three verdicts and the object are those of the format |
| `CertCodecs.EncodeExtend2` | BADNET/src/trunnel/ed25519_cert.c:2293-2359 | the length exactly when it fits, -2 otherwise; -1 with nothing written when a check fails, negative when a specifier does not fit its length field |
| `CertCodecs.ParseExtend2` | BADNET/src/trunnel/ed25519_cert.c:2365-2408 | the three verdicts and the object are those of the format |
| `CertCodecs.Extend2EncodedLen` | BADNET/src/trunnel/ed25519_cert.c:2261-2284 | the predicted length is the length of the encoding, and -1 exactly when the check fails |
| `CertCodecs.EncodeExtension` | BADNET/src/trunnel/ed25519_cert.c:522-625 | as link_specifier, with a two-byte length before the type |
| `CertCodecs.ParseExtension` | BADNET/src/trunnel/ed25519_cert.c:630-692 | the three verdicts and the object are those of the format |
| `CertCodecs.ExtensionEncodedLen` | BADNET/src/trunnel/ed25519_cert.c:482-512 | the predicted length is the length of the encoding |
| `CertCodecs.EncodeCert` | BADNET/src/trunnel/ed25519_cert.c:1894-1995 | the length exactly when it fits, -2 otherwise; -1 with nothing written when the version or the count is wrong, negative when an extension does not fit its length field |
| `CertCodecs.ParseCert` | BADNET/src/trunnel/ed25519_cert.c:2000-2071 | the three verdicts and the object are those of the format |
| `CertCodecs.CertEncodedLen` | BADNET/src/trunnel/ed25519_cert.c:1847-1892 | the predicted length is the length of the encoding, and -1 exactly when the check fails |
| `HandshakeCodecs.EncodeChallenge` | BADNET/src/trunnel/link_handshake.c:213-279 | the length exactly when it fits, -2 otherwise; -1 with nothing written when the count is wrong |
| `HandshakeCodecs.ParseChallenge` | BADNET/src/trunnel/link_handshake.c:285-321 | the three verdicts and the object are those of the format |
| `HandshakeCodecs.EncodeCertsCell` | BADNET/src/trunnel/link_handshake.c:1946-2005 | the length exactly when it fits, -2 otherwise; -1 with nothing written when the count or the length of a cert is wrong |
| `HandshakeCodecs.ParseCertsCell` | BADNET/src/trunnel/link_handshake.c:2010-2046 | the three verdicts and the object are those of the format |
| `HandshakeCodecs.EncodeAuth1` | BADNET/src/trunnel/link_handshake.c:1526-1661 | the length exactly when it fits, -2 otherwise; -1 with nothing written for a context that is neither 0 nor 1 |
| `HandshakeCodecs.ParseAuth1` | BADNET/src/trunnel/link_handshake.c:1666-1757 | the three verdicts and the fields are those of the format; a bad context is invalid only once type, cid and sid were there |
| `HandshakeCodecs.Auth1EncodedLen` | BADNET/src/trunnel/link_handshake.c:1464-1519 | the predicted length is the length of the encoding, and -1 exactly for a bad context |
| `HandshakeCodecs.EncodePwbox` | BADNET/src/trunnel/pwbox.c:358-470 | narrowing avail after the data changes nothing: the length exactly when it fits, -2 otherwise; -1 with nothing written when the check fails |
| `HandshakeCodecs.ParsePwbox` | BADNET/src/trunnel/pwbox.c:475-544 | the three verdicts and the object are those of the format |
| `HandshakeCodecs.PwboxEncodedLen` | BADNET/src/trunnel/pwbox.c:320-349 | the predicted length is the length of the encoding, and -1 exactly when the check fails |
| `NetinfoCodecs.EncodeAddr` | BADNET/src/trunnel/netinfo.c:189-283 | the length exactly when it fits, -2 otherwise; the stale len does not matter |
| `NetinfoCodecs.ParseAddr` | BADNET/src/trunnel/netinfo.c:288-346 | the three verdicts and the retained fields are those of the format |
| `NetinfoCodecs.AddrExactIff` | BADNET/src/trunnel/netinfo.c:322-335 | re-encoding a parsed address reproduces its bytes if and only if its type is known or its payload was empty |
| `NetinfoCodecs.EncodeNetinfo` | BADNET/src/trunnel/netinfo.c:582-654 | the length exactly when it fits, -2 otherwise; -1 with nothing written when the count is wrong |
| `NetinfoCodecs.NetinfoExactIff` | BADNET/src/trunnel/netinfo.c:660-708 | re-encoding a parsed netinfo_cell reproduces its bytes if and only if every address of an unknown type had an empty payload |
| `NetinfoCodecs.ParseNetinfo` | BADNET/src/trunnel/netinfo.c:660-708 | the three verdicts and the retained fields are those of the format |
| `NetinfoCodecs.EncodeSendme` | BADNET/src/trunnel/sendme_cell.c:183-270 | the length exactly when it fits, -2 otherwise; -1 with nothing written for a version above 1 |
| `NetinfoCodecs.SendmeExactIff` | BADNET/src/trunnel/sendme_cell.c:276-332 | re-encoding a parsed sendme_cell reproduces its bytes if and only if its version is 1 or its data_len is 0 |
| `NetinfoCodecs.ParseSendme` | BADNET/src/trunnel/sendme_cell.c:276-332 | the three verdicts are those of the format; a bad version is invalid before the length is looked at |
| `SocksCodecs.Encode4` | BADNET/src/trunnel/socks5.c:985-1337 | the length exactly when it fits, -2 otherwise; -1 with nothing written when the version is not 4 or the command not known |
| `SocksCodecs.Parse4` | BADNET/src/trunnel/socks5.c:1343-1675 | the three verdicts and the object are those of the format, through the searches for NUL |
| `SocksCodecs.FindNul` | BADNET/src/trunnel/socks5.c:1374-1377 | memchr finds the first NUL |
| `SocksCodecs.EncodeRequest` | BADNET/src/trunnel/socks5.c:3292-3405 | the length exactly when it fits, -2 otherwise; -1 with nothing written when a field is out of bounds, the tag unknown or the name's length wrong |
| `SocksCodecs.ParseRequest` | BADNET/src/trunnel/socks5.c:3411-3493 | the three verdicts and the object are those of the format |
| `SocksCodecs.EncodeReply` | BADNET/src/trunnel/socks5.c:3763-3876 | the length exactly when it fits, -2 otherwise; -1 with nothing written when a field is out of bounds, the tag unknown or the name's length wrong |
| `SocksCodecs.ParseReply` | BADNET/src/trunnel/socks5.c:3882-3960 | the three verdicts and the object are those of the format |
| `SocksCodecs.EncodeVersion` | BADNET/src/trunnel/socks5.c:2526-2591 | the length exactly when it fits, -2 otherwise; -1 with nothing written when the version or a length is wrong |
| `SocksCodecs.ParseVersion` | BADNET/src/trunnel/socks5.c:2597-2633 | the three verdicts and the object are those of the format |
| `SocksCodecs.EncodeUserPass` | BADNET/src/trunnel/socks5.c:2213-2297 | the length exactly when it fits, -2 otherwise; -1 with nothing written when the version or a length is wrong |
| `SocksCodecs.ParseUserPass` | BADNET/src/trunnel/socks5.c:2303-2346 | the three verdicts and the object are those of the format |
| `RoundTrips.ReadsBack` | BADNET/src/trunnel/ed25519_cert.c:1329-1468 | whatever an encoder of a self-delimiting format put in a buffer parses to the same object there, with any bytes after it |
| `RoundTrips.ReencodeLinkSpecifier` | BADNET/src/trunnel/ed25519_cert.c:1329-1564 | parsing and then encoding gives back the bytes that were parsed, or -2 when the buffer is too small for them |
| `RoundTrips.ReencodeSpecList` | BADNET/src/trunnel/ed25519_cert.c:2597-2698 | parsing and then encoding gives back the bytes that were parsed, or -2 when the buffer is too small for them |
| `RoundTrips.ReencodeCreate2` | BADNET/src/trunnel/ed25519_cert.c:188-290 | parsing and then encoding gives back the bytes that were parsed, or -2 when the buffer is too small for them |
| `RoundTrips.ReencodeExtend2` | BADNET/src/trunnel/ed25519_cert.c:2293-2408 | parsing and then encoding gives back the bytes that were parsed, or -2 when the buffer is too small for them |
| `RoundTrips.ReencodeExtension` | BADNET/src/trunnel/ed25519_cert.c:522-692 | parsing and then encoding gives back the bytes that were parsed, or -2 when the buffer is too small for them |
| `RoundTrips.ReencodeCert` | BADNET/src/trunnel/ed25519_cert.c:1894-2071 | parsing and then encoding gives back the bytes that were parsed, or -2 when the buffer is too small for them |
| `RoundTrips.ReencodeChallenge` | BADNET/src/trunnel/link_handshake.c:213-321 | parsing and then encoding gives back the bytes that were parsed, or -2 when the buffer is too small for them |
| `RoundTrips.ReencodeCertsCell` | BADNET/src/trunnel/link_handshake.c:1946-2046 | parsing and then encoding gives back the bytes that were parsed, or -2 when the buffer is too small for them |
| `RoundTrips.ReencodeAuth1` | BADNET/src/trunnel/link_handshake.c:1526-1757 | parsing and then encoding gives back the bytes that were parsed, or -2 when the buffer is too small for them |
| `RoundTrips.ReencodePwbox` | BADNET/src/trunnel/pwbox.c:358-544 | parsing and then encoding gives back the bytes that were parsed, or -2 when the buffer is too small for them |
| `RoundTrips.Reencode4` | BADNET/src/trunnel/socks5.c:985-1675 | parsing and then encoding gives back the bytes that were parsed, or -2 when the buffer is too small for them |
| `RoundTrips.ReencodeVersion` | BADNET/src/trunnel/socks5.c:2526-2633 | parsing and then encoding gives back the bytes that were parsed, or -2 when the buffer is too small for them |
| `RoundTrips.ReencodeUserPass` | BADNET/src/trunnel/socks5.c:2213-2346 | parsing and then encoding gives back the bytes that were parsed, or -2 when the buffer is too small for them |
| `RoundTrips.ReencodeRequest` | BADNET/src/trunnel/socks5.c:3292-3493 | parsing and then encoding gives back the bytes that were parsed, or -2 when the buffer is too small for them |
| `RoundTrips.ReencodeReply` | BADNET/src/trunnel/socks5.c:3763-3962 | parsing and then encoding gives back the bytes that were parsed, or -2 when the buffer is too small for them |
| `RoundTrips.ReencodeNetinfo` | BADNET/src/trunnel/netinfo.c:582-708 | parsing and then encoding never needs more bytes, parses to the same fields, and gives back the same bytes if and only if no payload was skipped |
| `RoundTrips.ReencodeSendme` | BADNET/src/trunnel/sendme_cell.c:183-332 | parsing and then encoding never needs more bytes, parses to the same fields, and gives back the same bytes if and only if no payload was skipped |
| `RoundTrips.MessagesDelimited` | BADNET/src/trunnel/ed25519_cert.c:24-29 | for each of these messages: every proper prefix of an accepted one is reported as truncated, and no encoding is a proper prefix of another |
| `RoundTrips.SocksDelimited` | BADNET/src/trunnel/socks5.c:24-29 | the same for the SOCKS messages |
| `RoundTrips.SpecsSplit` | BADNET/src/trunnel/ed25519_cert.c:2045-2055 | the bytes of an array of link specifiers come from one array only |
| `RoundTrips.ExtensionsSplit` | BADNET/src/trunnel/ed25519_cert.c:2045-2055 | the bytes of an array of certificate extensions come from one array only |
| `RoundTrips.CertsSplit` | BADNET/src/trunnel/link_handshake.c:2010-2046 | the bytes of an array of certs come from one array only |
| `RoundTrips.AddrsSplit` | BADNET/src/trunnel/netinfo.c:660-708 | the bytes of an array of addresses come from one array only |
| `TailQueue.Places` | BADNET/src/ext/tor_queue.h:348-352 | the pointer beside the place that leads to position i, read through the cast, leads to the position before it |
| `TailQueue.LinkedQueue` | BADNET/src/ext/tor_queue.h:388-420 | linking an element in at a position is insertion into the sequence and keeps every prev slot right |
| `TailQueue.UnlinkedQueue` | BADNET/src/ext/tor_queue.h:422-431 | unlinking is deletion from the sequence and keeps every prev slot right |
| `TailQueue.Head.constructor` | BADNET/src/ext/tor_queue.h:383-386 | TAILQ_INIT makes the empty sequence |
| `TailQueue.Head.InsertHead` | BADNET/src/ext/tor_queue.h:388-396 | the element is first, and elements of other queues keep their links |
| `TailQueue.Head.InsertTail` | BADNET/src/ext/tor_queue.h:398-403 | the element is last |
| `TailQueue.Head.InsertAfter` | BADNET/src/ext/tor_queue.h:405-413 | the element is right after the given one |
| `TailQueue.Head.InsertBefore` | BADNET/src/ext/tor_queue.h:415-420 | the element is right before the given one, without the head |
| `TailQueue.Head.Remove` | BADNET/src/ext/tor_queue.h:422-431 | the element is gone |
| `TailQueue.Head.Replace` | BADNET/src/ext/tor_queue.h:433-443 | the element is replaced in its position |
| `TailQueue.Head.Last` | BADNET/src/ext/tor_queue.h:348-349 | the last element, and null for the empty queue |
| `TailQueue.Head.Prev` | BADNET/src/ext/tor_queue.h:351-352 | the element before, and null for the first |
| `TailQueue.Head.Foreach` | BADNET/src/ext/tor_queue.h:357-360 | every element, in order |
| `TailQueue.Head.ForeachReverse` | BADNET/src/ext/tor_queue.h:369-372 | exactly the reversal of the forward traversal |
| `Includes.Closure` | BADNET/scripts/maint/practracker/includes.py:201-220 | closure terminates with exactly the nodes reachable by one or more edges |
| `Includes.Toposort` | BADNET/scripts/maint/practracker/includes.py:222-255 | each removed node is in a level strictly after all its dependencies that are nodes and is removed once; what is left are the other nodes with their dependencies on each other |
| `Includes.LeftIffLongChain` | BADNET/scripts/maint/practracker/includes.py:238-255 | for every graph, something is left if and only if there is a chain, repetitions allowed, of limit + 2 nodes |
| `Includes.LeftIffCycle` | BADNET/scripts/maint/practracker/includes.py:222-255 | when no simple chain has more than limit + 1 nodes, something is left if and only if some node is in its own closure |
| `Includes.ChainLeftOver` | BADNET/scripts/maint/practracker/includes.py:231-233 | against the docstring, at every limit: a line of limit + 2 nodes has no cycle, and toposort always leaves some of it |
| `Includes.RemoveSelfEdges` | BADNET/scripts/maint/practracker/includes.py:192-199 | exactly the self edges are gone, the rest of each list keeps its order (`WithoutInOrder`), and which nodes reach which others is unchanged |
| `Includes.WithoutInOrder` | BADNET/scripts/maint/practracker/includes.py:192-199 | the list left is the old one at the positions that do not hold the node, from left to right |
| `SipHash.DoubleRoundIsTwo` | BADNET/src/ext/csiphash.c:40-52 | DOUBLE_ROUND is two SipRounds |
| `SipHash.DoubleRoundInvertible` | BADNET/src/ext/csiphash.c:40-52 | DOUBLE_ROUND has a two-sided inverse on four 64-bit words |
| `SipHash.Tail` | BADNET/src/ext/csiphash.c:97-107 | the fall-through switch builds the little-endian word of the tail, zeros and the length |
| `SipHash.Siphash24` | BADNET/src/ext/csiphash.c:65-116 | the block loop and the switch compute SipHash-2-4 as a fold over the little-endian words of the padded message |
| `SipHash.EmptyVector` | BADNET/src/test/test_crypto.c:2757-2760 | under the key 00 01 .. 0f the empty message hashes to 726fdb47dd0e0e31 |
| `SipHash.FifteenVector` | BADNET/src/test/test_crypto.c:2757-2775 | under the same key the bytes 00 to 0e hash to a129ca6149be45e5 |

## Left out

Allocator:

- Guard pages, ptrguard, aligned allocation, junk filling, option parsing, statistics, locking and mprotect: malloc_guard, malloc_ptrguard and align are 0, and their branches are not modelled.
- malloc_brk and last_index, which only filter junk pointers: pointers passed to free and realloc are addresses in pages that the directory knows.
- Allocator.FreeBytes: excludes pointers to the chunks in which a page keeps its own record, which no allocation returned; the code does not detect them and breaks the record (`Allocator.AdminBreaks`).
- Allocator.IFree: excludes the same pointers.
- Allocator.IRealloc: excludes the same pointers; `Allocator.Measure` says that the code takes them for blocks.
- MallocApi.Malloc.Release: excludes the same pointers.
- MallocApi.Malloc.Resize: excludes the same pointers.
- Failure of munmap, which the code answers by leaving the entry untrimmed.
- The memory's contents: realloc's copying and the junk patterns.
- The allocator's use of itself: holders of free runs (struct pgfree) and records outside their page are supplied from outside the arena, with unused addresses; records inside their page are at the page's own address.
- The bucket heads sit in the first entries of the first directory page; the model keeps them apart and only counts them.
- Sizes on the free list and malloc_cache are in pages, addresses of pages are page indices, and a bitmap word is 64 booleans.

Hash table:

- That the sizes in the prime table are prime: no property here depends on it.
- The float load factor 0.6 is the integer part of 3p/5; hash values are integers, reduced modulo the table length.
- The equality function is equality of an abstract key, and equal keys have equal hashes.
- HashTable.Table.Replace: needs an element that is not in the table and whose next pointer is null, because the code does not clear that pointer; and what InsertNew needs.
- HashTable.Table.InsertNew: needs a growth that stays inside the prime table (`CanGrow`), since what lies past the table is unknown, and a table to insert into: after a refused first growth the code takes a hash modulo 0.
- HashTable.Table.FindOrInsert: needs what InsertNew needs.
- HT_CLEAR, HT_EMPTY and HT_SIZE, which would only add easy members.

Codecs:

- Getters, setters, clear and free functions, allocation failures, null objects and the error code that setters leave: an encoder's object has fields of their C types.
- Union arms that are not selected: an object is modelled with its active arm, so the arm and a known tag agree; strings that were never set are left out.
- rsa_ed_crosscert has its format and laws but no cursor-style encoder and parser; extend1_cell_body, socks4_server_reply, socks5_server_method, socks5_server_userpass_auth, channelpadding and circpad have fixed layouts and are left out.
- Consecutive fixed fields of an encoder are written by one loop over the fields (`Cursor.PutFields`), each with its own test for room, where the source repeats the test and the copy.
- The pointers end_of_fixed_part and end_of_signed that auth1 and rsa_ed_crosscert record while parsing.

Other parts:

- The circular, simple and singly linked queues of `tor_queue.h`, TAILQ_FOREACH_SAFE, and the poisoning of removed entries.
- Includes.Closure: the model returns the new mapping; that Python's closure leaves its argument alone is by construction.
- Includes.Toposort: the dictionary that Python changes in place is the result `left`.
- The global key of siphash24g, and the disabled branch for unaligned loads.
- Everything else in the repository: the relay and client scripts, address resolution, key generation and the command-line tools.
