# Verified models of nginx's core library

nginx 1.16.0 keeps its own data structures and protocols in `src/core`. This project models the hardest of them in
Dafny and proves what the rest of the server relies on. Each module models one source file.

- `SlabPages`, `SlabChunks`, `Slab`: the slab allocator of shared memory zones. The page records, list heads, bitmaps
  and counters are arrays that `Pool` changes in place; what holds between calls is a statement about the array
  contents and a ghost book of runs. Allocated memory never overlaps, is large enough and spares the bitmaps; the
  allocator fails exactly when there is no room; a release takes back exactly one allocation; when everything was
  released the pool is one free run again. Two wrong pointers are not turned down: one to the bitmap of a page of small
  chunks, which is taken for a chunk and leaves a pool that is broken, and, in zones where alignment costs no page, one
  behind the last page, for which a record behind the cleared ones is read.
- `RbTree`: the red-black tree, with node objects, parent links and a shared sentinel. Insertion and removal with their
  rotations and fixup loops keep order, colours, black heights and links, and change the in-order sequence of nodes at
  one place. The comparison of timer keys, which takes their signed difference, is an order on exactly the sets of keys
  that fit into half the range.
- `WildcardHash`: wildcard names compiled into a tree of hashes with tagged values. For keys with values of their own
  the lookup answers with the most specific name for every host if and only if the names under each label stand
  together in the sorted list, at every level. Names of printing characters always do; a control character can break it.
- `WildcardKeys`: names gathered by `ngx_hash_add_key`, and the whole way from patterns as written to the value of a
  host. A dotted name that is turned down because of a starred one stays in use as an exact name. Which names are
  turned down as faulty is stated on their texts; names that begin with a dot may have a star anywhere.
- `HashLayout`: the memory of an exact-match hash. The elements and terminators of all buckets fit without overlap, and
  the walk over them by aligned steps visits exactly the elements written.
- `Shmtx`: the shared mutex with atomic operations and a POSIX semaphore, as atomic steps of any number of processes.
- `ThreadPool`: the task queue, its worker threads and the completion list, linked by the pointers of the source, as
  atomic steps of any number of threads.
- `OpenFileCache`: entries, index, queue, reference counts and descriptors of the open file cache, with all that the
  system may answer as parameters. No descriptor is closed twice or while a caller uses it, with one exception: an entry
  is looked at again and its name leads to a directory with the number of its file, which `st_ino` alone allows on
  another file system. Exactly then the cache is broken; an entry keeps a closed descriptor and would close it again. The
  one way to lose a descriptor is stated exactly as well.
- `Calendar`: `ngx_gmtime`, `ngx_http_time` and `ngx_parse_http_time` against a calendar that counts years and months
  one by one; IMF-fixdate is section 7.1.1.1 of RFC 7231. Two oddities of the parser are pinned down: day 0 is accepted
  as the last day of the month before, and January and February of year 0 give a wrong time.
- `RadixTree`: the tree of address prefixes with its free list of nodes. A search gives the value of the longest prefix
  stored; insertion and deletion succeed exactly when they should and change one prefix; no leaf is without a value.
  One call reads through a NULL pointer: deleting the empty prefix from a tree of the root alone.
- `QueueSort`: the ring of links, its middle element and its insertion sort, which gives the one result that is sorted,
  stable and a permutation.
- `Crc32`: the loop over nibbles and the loop over bytes, each with its table, against the bitwise definition of section 8
  of RFC 1952; damage within four adjacent bytes always changes the value.
- `ConfText`, `ConfLexer`: the lexer of configuration files. A grammar of statements, blocks, comments, quotes, escapes
  and ends of files says how each is answered, from the text alone; the reader with its sliding buffer answers so.
- `Inet6`: reading and writing IPv6 addresses (section 2.2 of RFC 4291) and the dotted addresses in them. Every address
  is read as it was written but for two, whose tail reads as the value that stands for an error. A grammar says which
  texts are accepted; seven words and a double colon, which stands for the eighth, are not among them.
- `OutputChain`: buffers on their way to a connection, copied into a bounded number of temporary ones, with
  `ngx_chain_writer` as the writer and all that the connection may take as a parameter. What was sent is at any time the
  beginning of what was given. Flags may come twice: a temporary buffer keeps its flags when the beginning of another
  buffer is copied into it.

Conventions. The source's two mirrored branches (left and right) share one method with a side flag. A bitmap word is the
set of its one bits. A pointer with type bits is a datatype value and a kind. Memory allocation from pools succeeds or is
a parameter. `dafny verify dfyconfig.toml` checks the whole project.

## Model

| member | source | states |
|---|---|---|
| `Slab.Pool.constructor` | nginx-1.16.0/src/core/ngx_slab.c:98-165 | for every zone with room for a page: the heads, counters and page records lie before the aligned first page and all pages before the end; the pool is valid, one free run, nothing allocated |
| `Slab.Pool.Alloc` | nginx-1.16.0/src/core/ngx_slab.c:183-417 | for any size: succeeds exactly when there is room; the result was not allocated, now is, is at least as large as asked, a chunk of the smallest fitting size or whole pages with less than one to spare, and nothing else changes; the call is counted for the slot that fits, as failed exactly if it did; the pool stays valid |
| `Slab.Pool.Free` | nginx-1.16.0/src/core/ngx_slab.c:460-674 | for any pointer: accepted exactly when it is the address of an allocation, which alone goes, or of a chunk that holds a bitmap; the pool stays valid exactly when it is not the latter, and then no book of runs and chunks fits it any more; a record that is not cleared memory is read exactly behind the cleared ones; otherwise nothing changes |
| `SlabChunks.RecordMissing` | nginx-1.16.0/src/core/ngx_slab.c:470-477 | some pointer let through by the range test has no cleared record, exactly when the whole pages behind the start are no fewer than the records |
| `Slab.EndHasNoRecord` | nginx-1.16.0/src/core/ngx_slab.c:134-157 | a zone of eight pages is such a zone, with its end as the pointer |
| `Slab.BitmapReleased` | nginx-1.16.0/src/core/ngx_slab.c:484-519 | one allocation and one release of the start of its page leave a pool that no book fits |
| `Slab.Pool.AllocPages` | nginx-1.16.0/src/core/ngx_slab.c:677-730 | a run of n pages is found exactly when some free run is long enough; it is cut off, the rest stays listed, the free pages drop by n |
| `Slab.Pool.FreePages` | nginx-1.16.0/src/core/ngx_slab.c:733-810 | the run becomes free and is joined with both neighbours; the free pages grow by n, all other allocations stay |
| `Slab.Pool.JoinNext` | nginx-1.16.0/src/core/ngx_slab.c:753-772 | the free run behind is taken in, whenever there is one |
| `Slab.Pool.JoinPrev` | nginx-1.16.0/src/core/ngx_slab.c:774-798 | the free run in front is found by the record before, through the back pointer of its last page, and takes the run in |
| `Slab.Pool.TakeBit` | nginx-1.16.0/src/core/ngx_slab.c:271-326 | a page on a slot's list has a clear bit, so the loop always finds one; a page that gets full leaves its list |
| `Slab.Pool.TakeSmall` | nginx-1.16.0/src/core/ngx_slab.c:228-269 | the same with a bitmap in the page: its first clear bit is found word by word |
| `Slab.Pool.MakeSlab` | nginx-1.16.0/src/core/ngx_slab.c:332-405 | a fresh page becomes a page of chunks whose bitmap chunks and first chunk are taken |
| `Slab.Pool.DropChunk` | nginx-1.16.0/src/core/ngx_slab.c:497-510 | a full page returns to the front of its list, and one bit is cleared |
| `Slab.Pool.Emptied` | nginx-1.16.0/src/core/ngx_slab.c:512-533 | a small page is empty exactly when only the bits of its own bitmap chunks are left |
| `SlabPages.UnlinkedList` | nginx-1.16.0/src/core/ngx_slab.c:747-751 | taking any record out leaves the list the same without it, forth and back |
| `SlabPages.AbsorbFree` | nginx-1.16.0/src/core/ngx_slab.c:753-798 | joining two runs that touch keeps the tiling, the records, the lists and that no two free runs touch |
| `SlabPages.CutFree` | nginx-1.16.0/src/core/ngx_slab.c:684-695 | cutting a free run keeps all of these, with the rest in the place of the run on the list |
| `SlabPages.PublishLoose` | nginx-1.16.0/src/core/ngx_slab.c:800-809 | a run between non-free neighbours can be listed; its last page points back to its first |
| `SlabPages.PutSlab` | nginx-1.16.0/src/core/ngx_slab.c:357-405 | a page of chunks with room goes on the list of its slot |
| `SlabPages.FreeBefore` | nginx-1.16.0/src/core/ngx_slab.c:774-784 | the record before a page tells whether a free run ends there and where it starts |
| `SlabChunks.LiveDisjoint` | nginx-1.16.0/src/core/ngx_slab.c:183-417 | two allocations never overlap |
| `SlabChunks.LiveInside` | nginx-1.16.0/src/core/ngx_slab.c:183-417 | every allocation lies inside the pages of the pool |
| `SlabChunks.LiveClearOfBitmaps` | nginx-1.16.0/src/core/ngx_slab.c:335-371 | no allocation touches a bitmap |
| `SlabChunks.TakenIsLive` | nginx-1.16.0/src/core/ngx_slab.c:487-497 | the bit that a release tests is set exactly for allocations and for the chunks of the bitmap itself |
| `SlabChunks.AllFreed` | nginx-1.16.0/src/core/ngx_slab.c:733-810 | with nothing allocated the pool is one free run of all pages |
| `SlabChunks.FreeTotal` | nginx-1.16.0/src/core/ngx_slab.c:707-739 | the count of free pages is the sum of the lengths of the runs on the free list |
| `SlabChunks.FullByWords` | nginx-1.16.0/src/core/ngx_slab.c:251-264 | a small page is full exactly when all words of its bitmap are |
| `SlabChunks.SlotFor` | nginx-1.16.0/src/core/ngx_slab.c:208-216 | the shifting loop finds the slot with the smallest chunks that are large enough |
| `SlabChunks.PagesFit` | nginx-1.16.0/src/core/ngx_slab.c:134-157 | aligning the first page costs at most one of the pages counted |
| `RbTree.Tree.Insert` | nginx-1.16.0/src/core/ngx_rbtree.c:24-94 | any key, any tree: valid again, the node spliced into the in-order sequence after the keys not greater; sorted order is kept for every window |
| `RbTree.Tree.Delete` | nginx-1.16.0/src/core/ngx_rbtree.c:156-320 | valid again, the in-order sequence loses exactly the node, keys and order kept; the links and the key of the node are cleared |
| `RbTree.Tree.InsertValue` | nginx-1.16.0/src/core/ngx_rbtree.c:97-153 | the node becomes a red leaf at its place; only the colour of a red parent may be wrong |
| `RbTree.Tree.InsertFixup` | nginx-1.16.0/src/core/ngx_rbtree.c:46-94 | the loop ends and repairs the one red-red edge |
| `RbTree.Tree.DeleteFixup` | nginx-1.16.0/src/core/ngx_rbtree.c:254-320 | the loop ends and repairs the one short black height, also when the node is the sentinel |
| `RbTree.Tree.LeftRotate` | nginx-1.16.0/src/core/ngx_rbtree.c:323-350 | links, parents and the in-order sequence stay right |
| `RbTree.Tree.RightRotate` | nginx-1.16.0/src/core/ngx_rbtree.c:353-380 | links, parents and the in-order sequence stay right |
| `RbTree.Tree.Next` | nginx-1.16.0/src/core/ngx_rbtree.c:383-409 | the successor in the in-order sequence, or nothing for the last node |
| `RbTree.Tree.Min` | nginx-1.16.0/src/core/ngx_rbtree.h:73-81 | the first node of the in-order sequence below a node |
| `RbTree.Tree.SiblingIsReal` | nginx-1.16.0/src/core/ngx_rbtree.c:258-259 | a node on a path one black node short has a sibling that is not the sentinel, so that the test for the left child tells its side, also when it is the sentinel |
| `RbTree.Tree.WalkIsOrder` | nginx-1.16.0/src/core/ngx_rbtree.h:73-81 | the walk along the links yields the in-order sequence |
| `RbTree.Tree.Balanced` | nginx-1.16.0/src/core/ngx_rbtree.c:46-94 | the height is at most twice the logarithm of the number of nodes plus one |
| `RbTree.LessIsRankOrder` | nginx-1.16.0/src/core/ngx_rbtree.c:121-140 | within half the key range from a base the timer comparison is the order of distances from the base |
| `RbTree.HalfRangeBoth` | nginx-1.16.0/src/core/ngx_rbtree.c:121-140 | two timer keys exactly half the range apart are each before the other |
| `RbTree.OrderedIffWindow` | nginx-1.16.0/src/core/ngx_rbtree.c:121-140 | the comparison is a strict total order on a finite set of keys if and only if some base has all of them within half the key range |
| `WildcardHash.WildcardInit` | nginx-1.16.0/src/core/ngx_hash.c:464-606 | for every list, in any order, in which no length of a rest wraps below zero: the loops and recursion build the tree that the definition by groups describes |
| `WildcardHash.Collect` | nginx-1.16.0/src/core/ngx_hash.c:489-571 | a group ends at the first key outside the label, and every key in it is cut behind its label |
| `WildcardHash.DifferentCuttable` | nginx-1.16.0/src/core/ngx_hash.c:545-571 | lists of different keys are such lists, at all levels |
| `WildcardHash.FindWcHead` | nginx-1.16.0/src/core/ngx_hash.c:52-143 | taking labels from the end of the host is looking up its labels in reverse |
| `WildcardHash.FindWcTail` | nginx-1.16.0/src/core/ngx_hash.c:146-207 | the same from the front, with one label left over |
| `WildcardHash.KeyOf` | nginx-1.16.0/src/core/ngx_hash.c:882-914 | the copying loop makes the key with the labels of the pattern in reverse |
| `WildcardHash.RightIffContiguous` | nginx-1.16.0/src/core/ngx_hash.c:464-606 | for sorted keys without conflicts and with values of their own: every name gets the value of the most specific key if and only if the keys under each label stand together, at all levels |
| `WildcardHash.ContiguousIsRight` | nginx-1.16.0/src/core/ngx_hash.c:52-207 | with repeated values as well, contiguity makes every answer right, in both trees |
| `WildcardHash.CleanIsContiguous` | nginx-1.16.0/src/core/ngx_string.c:846-874 | sorted keys of printing characters in lower case are contiguous at all levels |
| `WildcardHash.ControlCharacterBreaks` | nginx-1.16.0/src/core/ngx_string.c:846-874 | a sorted list without conflicts, with a tab in a name, that is not contiguous |
| `WildcardHash.HeadFindsMostSpecific` | nginx-1.16.0/src/core/ngx_hash.c:88-142 | for keys in a sorted order that stand together under each label, a host gets the value of the pattern with the longest domain among those that cover it, or none |
| `WildcardKeys.CleanHead` | nginx-1.16.0/src/core/ngx_hash.c:882-934 | patterns of printing characters with domains of their own give, sorted, such keys |
| `WildcardKeys.KeysArrays.AddKey` | nginx-1.16.0/src/core/ngx_hash.c:712-988 | a name is turned down exactly when it has a zero, two dots in a row, two stars, or one star in no place for one; otherwise which names are in use, exact, dotted, starred or trailing wildcards, what each adds, and that a dotted name in conflict with a starred one stays in use as an exact name |
| `WildcardKeys.AddFirst` | nginx-1.16.0/src/core/ngx_hash.c:712-988 | for every domain d the names d, .d, *.d and d.* are taken as the first name, each by its own list, in lower case, and by no other |
| `WildcardKeys.RefusedIffFaulty` | nginx-1.16.0/src/core/ngx_hash.c:725-773 | the names turned down are exactly those with a zero, two dots in a row, two stars, or one star that is neither at the front with a dot behind it nor at the end with a dot before it; but a name that begins with a dot is taken with a star anywhere |
| `WildcardKeys.KindsWritten` | nginx-1.16.0/src/core/ngx_hash.c:725-773 | a domain alone, behind a dot, behind a star and a dot, and before a dot and a star, are the four kinds |
| `WildcardKeys.Classify` | nginx-1.16.0/src/core/ngx_hash.c:725-773 | the scan tells what RefusedIffFaulty and KindsWritten say: it refuses names with two stars, two dots in a row or a zero, and tells the wildcards apart |
| `WildcardKeys.KeysArrays.FindHead` | nginx-1.16.0/src/core/ngx_hash.c:52-143 | from gathered patterns of printing characters to a host: sorted in any way, compiled and searched, the pattern with the longest domain wins |
| `WildcardKeys.KeysArrays.FindTail` | nginx-1.16.0/src/core/ngx_hash.c:146-207 | the same for trailing wildcards: the longest pattern wins |
| `WildcardKeys.TailFindsMostSpecific` | nginx-1.16.0/src/core/ngx_hash.c:146-207 | in the other tree a host gets the value of the longest pattern that covers it, or none |
| `HashLayout.Init` | nginx-1.16.0/src/core/ngx_hash.c:251-458 | refused exactly without a size or with a name too long for a bucket; the first number of buckets from the start that fits is taken; every bucket in use has its elements in order and a terminator, apart from all others and within the memory |
| `HashLayout.FindSize` | nginx-1.16.0/src/core/ngx_hash.c:288-321 | the size found is the first one whose buckets all fit |
| `HashLayout.FittingIsReached` | nginx-1.16.0/src/core/ngx_hash.c:286-297 | with live names only, a size that fits is left out by the search exactly if there are more than 10000 sizes, fewer than a hundred for each name, and it is not one of the last 1001; otherwise the size found is the least of all |
| `HashLayout.FitsNeeds` | nginx-1.16.0/src/core/ngx_hash.c:286-287 | no size fits that has fewer buckets than the live names need |
| `HashLayout.DeadNamesShift` | nginx-1.16.0/src/core/ngx_hash.c:286-287 | with names that are not live the search may begin behind the only size that fits, and find none |
| `HashLayout.TestSize` | nginx-1.16.0/src/core/ngx_hash.c:295-316 | the test with wrapping 16-bit totals stops exactly when some bucket is too full |
| `HashLayout.Lay` | nginx-1.16.0/src/core/ngx_hash.c:332-428 | for any number of buckets whose totals fit 16 bits the elements are laid out so |
| `HashLayout.LoweredIs` | nginx-1.16.0/src/core/ngx_string.h:47-47 | names are stored with each of the 26 capital letters as its small one and all other characters as they are |
| `HashLayout.Apart` | nginx-1.16.0/src/core/ngx_hash.c:377-386 | buckets do not overlap |
| `HashLayout.Inside` | nginx-1.16.0/src/core/ngx_hash.c:392-407 | an element and a terminator behind it lie within its own bucket |
| `HashLayout.Find` | nginx-1.16.0/src/core/ngx_hash.c:12-49 | the walk gives the value of the first element of the bucket with the name, or nothing |
| `HashLayout.FindsExactly` | nginx-1.16.0/src/core/ngx_hash.c:12-49 | with names of their own, a name is found with a value exactly when the list has it with that value |
| `WildcardHash.CoversIsMatch` | nginx-1.16.0/src/core/ngx_hash.c:90-99 | matching label by label is ending with the pattern, or being its domain |
| `WildcardHash.MatchesIsPrefix` | nginx-1.16.0/src/core/ngx_hash.c:545-555 | matching label by label is beginning with the key and a dot, or being the key |
| `WildcardHash.ConflictIsSameDomain` | nginx-1.16.0/src/core/ngx_hash.c:937-952 | patterns in conflict are those with the same domain |
| `WildcardHash.Between` | nginx-1.16.0/src/core/ngx_string.c:863-870 | between two keys with a label only keys with that label are sorted |
| `Shmtx.MutualExclusion` | nginx-1.16.0/src/core/ngx_shmtx.c:62-146 | in every run at most one process holds the lock |
| `Shmtx.WaitersAreCounted` | nginx-1.16.0/src/core/ngx_shmtx.c:92-118 | in every run the waiter count, the semaphore and posts in flight add up to the processes that announced themselves, and the signed count is exact |
| `Shmtx.NoLostWakeup` | nginx-1.16.0/src/core/ngx_shmtx.c:164-196 | in every run nobody sleeps while the lock is free, no token is left and no process is active |
| `Shmtx.SleeperIsNoDeadlock` | nginx-1.16.0/src/core/ngx_shmtx.c:70-196 | in every run, when somebody sleeps at a free lock, at most seven more steps lead to the lock being taken |
| `Shmtx.TryLockTakes` | nginx-1.16.0/src/core/ngx_shmtx.c:62-66 | in every run a trylock gets the lock exactly when it is free at both of its steps, and otherwise changes nothing; alone it gets any free lock |
| `Shmtx.Takes` | nginx-1.16.0/src/core/ngx_shmtx.c:70-131 | a process that enters a free lock takes it by at most three steps of its own |
| `Shmtx.StepInv` | nginx-1.16.0/src/core/ngx_shmtx.c:62-196 | every atomic step keeps all three invariants |
| `ThreadPool.EveryTaskInOnePlace` | nginx-1.16.0/src/core/ngx_thread_pool.c:230-274 | in every interleaving each active task is in exactly one of queue, running, done and completed |
| `ThreadPool.PointersTell` | nginx-1.16.0/src/core/ngx_thread_pool.c:262-263 | in every run following the next pointers from the first one yields the tasks posted and not yet taken in the order in which they were posted; the same for the done list and for what the completion handler took over |
| `ThreadPool.FirstInFirstOut` | nginx-1.16.0/src/core/ngx_thread_pool.c:323-324 | a worker that takes a task through the first pointer takes the one posted longest ago of those not taken yet |
| `ThreadPool.CompletedInOrder` | nginx-1.16.0/src/core/ngx_thread_pool.c:386-392 | the completion handler reads its tasks in the order in which they were finished, also when completed ones are posted again meanwhile |
| `ThreadPool.ChainIsOne` | nginx-1.16.0/src/core/ngx_thread_pool.c:324-324 | following pointers yields one sequence only |
| `ThreadPool.QueueIsBounded` | nginx-1.16.0/src/core/ngx_thread_pool.c:230-274 | the counter is the queue length less the threads about to take; the queue holds at most max_queue and one per thread |
| `ThreadPool.RefusedIffFull` | nginx-1.16.0/src/core/ngx_thread_pool.c:243-260 | in every run a post is refused exactly when the tasks queued, less the workers that wait for one, are no fewer than max_queue, and then nothing changes; otherwise the task is accepted |
| `ThreadPool.AcceptedIsQueued` | nginx-1.16.0/src/core/ngx_thread_pool.c:256-267 | an accepted task is the last one of the queue when the mutex is given up |
| `ThreadPool.RunOnce` | nginx-1.16.0/src/core/ngx_thread_pool.c:334-340 | in every run a task whose completion is handled was run exactly once since it was posted |
| `ThreadPool.WaitsIffEmpty` | nginx-1.16.0/src/core/ngx_thread_pool.c:306-318 | a worker that tests the queue waits exactly when it is empty |
| `ThreadPool.NoDeadlock` | nginx-1.16.0/src/core/ngx_thread_pool.c:230-394 | in every run some thread can make a step |
| `ThreadPool.WorkerGoesOn` | nginx-1.16.0/src/core/ngx_thread_pool.c:296-360 | a worker can make a step whenever it does not want a mutex that is taken |
| `ThreadPool.NoStrandedTask` | nginx-1.16.0/src/core/ngx_thread_pool.c:306-360 | while a task is queued some thread is not asleep |
| `ThreadPool.TakeFindsATask` | nginx-1.16.0/src/core/ngx_thread_pool.c:323-328 | a thread that takes a task finds one, and the last pointer then leads to the end of the queue |
| `ThreadPool.StepInv` | nginx-1.16.0/src/core/ngx_thread_pool.c:230-394 | every atomic step keeps the invariants |
| `OpenFileCache.Cache.OpenCached` | nginx-1.16.0/src/core/ngx_open_file_cache.c:200-486 | for every answer of the system: what is answered, from the entry and the system alone: a young entry answers as it is, an unchanged file keeps its descriptor and a changed one gets a new one, a failing look answers its error, and the entry remembers what was answered and when; the cache stays as it should be if and only if it is not so that the entry is looked at again and its name leads to a directory with the number of its file; then no account of open descriptors fits. Otherwise index, queue and count agree, other callers keep what they have, the descriptor handed out is open and counted, the entry that answers is in the index and first in the queue, and the descriptors lost are exactly those of a file that is away at the first look and back at the second |
| `OpenFileCache.ClosedTwice` | nginx-1.16.0/src/core/ngx_open_file_cache.c:332-350 | a run that ends with an entry whose descriptor is closed and that `failed` would close again |
| `OpenFileCache.Cache.Cleanup` | nginx-1.16.0/src/core/ngx_open_file_cache.c:1017-1028 | one caller less; what other callers have stays, no descriptor is lost, and an entry used often enough stays in the cache with its descriptor |
| `OpenFileCache.Cache.CloseCached` | nginx-1.16.0/src/core/ngx_open_file_cache.c:1031-1074 | closes only what is open and in nobody's use; an entry in use stays |
| `OpenFileCache.Cache.CloseListed` | nginx-1.16.0/src/core/ngx_open_file_cache.c:1039-1050 | an entry used just now goes to the front; its descriptor stays open only if used often enough or in use |
| `OpenFileCache.Cache.Expire` | nginx-1.16.0/src/core/ngx_open_file_cache.c:1094-1142 | at most three entries go from the end of the queue, one in any case when forced; what callers have stays, and unless forced so do all entries used lately; it stops before that number only at an empty queue or at an entry used lately |
| `OpenFileCache.Cache.OpenAndStat` | nginx-1.16.0/src/core/ngx_open_file_cache.c:839-945 | the answer is the error of the call that failed, or what the name leads to; a file found unchanged keeps its descriptor. The descriptor given is kept, or one new descriptor is returned, or none is left open; a directory comes with the descriptor given exactly when it bears the number given |
| `OpenFileCache.Cache.Retest` | nginx-1.16.0/src/core/ngx_open_file_cache.c:271-350 | all outcomes and answers of looking a cached name up again, with the exact one that breaks the cache |
| `OpenFileCache.Cache.Create` | nginx-1.16.0/src/core/ngx_open_file_cache.c:360-391 | room is made, so that the count never exceeds the maximum |
| `OpenFileCache.Cache.Fail` | nginx-1.16.0/src/core/ngx_open_file_cache.c:453-476 | a failing entry leaves the cache and is freed unless a caller uses it |
| `OpenFileCache.Cache.Destroy` | nginx-1.16.0/src/core/ngx_open_file_cache.c:88-140 | only entries that had left the index and wait for their callers remain, each with its descriptor; after all cleanups nothing is left, and only descriptors lost before are open |
| `OpenFileCache.HeldIsOpen` | nginx-1.16.0/src/core/ngx_open_file_cache.c:1017-1028 | what a caller was given is open until it cleans up |
| `OpenFileCache.OneOwner` | nginx-1.16.0/src/core/ngx_open_file_cache.c:397-399 | two entries never have the same descriptor |
| `Calendar.Gmtime` | nginx-1.16.0/src/core/ngx_times.c:327-429 | the fields denote the second given, cut off at both ends, and the weekday is right |
| `Calendar.DateOfDay` | nginx-1.16.0/src/core/ngx_times.c:365-419 | Gauss' formula backwards gives the valid date with this day number |
| `Calendar.YearOfDay` | nginx-1.16.0/src/core/ngx_times.c:365-382 | the estimate of the year, with its correction for a negative year day, is right for every day |
| `Calendar.DateIsUnique` | nginx-1.16.0/src/core/ngx_times.c:327-429 | a day number belongs to one date only |
| `Calendar.DayNumberIsGauss` | nginx-1.16.0/src/core/ngx_parse_time.c:241-266 | the count of years and months one by one is Gauss' formula |
| `Calendar.HttpTime` | nginx-1.16.0/src/core/ngx_times.c:282-297 | the text is the fixed form with the fields of the time |
| `Calendar.ParseHttpTime` | nginx-1.16.0/src/core/ngx_parse_time.c:15-277 | for every text: accepted exactly when it is written in one of the three forms with fields in range; the time is the one of the fields, except exactly in the first two months of year 0; no character outside the text is read |
| `Calendar.DateSeconds` | nginx-1.16.0/src/core/ngx_parse_time.c:241-276 | the unsigned formula gives the right time unless the year wraps below zero, and then never |
| `Calendar.FormulaTime` | nginx-1.16.0/src/core/ngx_parse_time.c:245-276 | with every sum, difference and product reduced modulo 2^64 the result is the formula's, read as a signed number |
| `Calendar.RoundTrip` | nginx-1.16.0/src/core/ngx_parse_time.c:15-277 | reading a printed time gives it back, for every time from 0 to the end of 9999 |
| `Calendar.HttpWritten` | nginx-1.16.0/src/core/ngx_parse_time.c:23-23 | every IMF-fixdate text is accepted with its fields |
| `Calendar.Rfc850Written` | nginx-1.16.0/src/core/ngx_parse_time.c:24-24 | every RFC 850 text of 1970 to 2069 is accepted with its fields |
| `Calendar.AsctimeWritten` | nginx-1.16.0/src/core/ngx_parse_time.c:25-25 | every asctime text is accepted with its fields |
| `Calendar.WrittenOnce` | nginx-1.16.0/src/core/ngx_parse_time.c:36-221 | a text denotes one set of fields |
| `Calendar.DayZero` | nginx-1.16.0/src/core/ngx_parse_time.c:227-234 | day 0 is accepted and is the last day of the month before |
| `RadixTree.RadixTree.Insert` | nginx-1.16.0/src/core/ngx_radix_tree.c:108-170 | busy exactly when the prefix is stored; otherwise it alone is stored with the value |
| `RadixTree.RadixTree.Delete` | nginx-1.16.0/src/core/ngx_radix_tree.c:173-233 | succeeds exactly when the prefix is stored, which alone goes; with an empty mask and a root without children, and only then, the result is that the parent of the root is read, which is NULL |
| `RadixTree.RadixTree.Lookup` | nginx-1.16.0/src/core/ngx_radix_tree.c:236-263 | the value of the longest stored prefix of the key |
| `RadixTree.LongestIs` | nginx-1.16.0/src/core/ngx_radix_tree.c:247-260 | that value is none exactly when no prefix is stored |
| `RadixTree.RadixTree.Alloc` | nginx-1.16.0/src/core/ngx_radix_tree.c:463-488 | the node is neither in the tree nor on the free list |
| `RadixTree.RadixTree.Prune` | nginx-1.16.0/src/core/ngx_radix_tree.c:206-230 | taking out a leaf and all nodes above it that are needed for nothing changes no other prefix |
| `RadixTree.LeafHasValue` | nginx-1.16.0/src/core/ngx_radix_tree.c:217-229 | a leaf other than the root has a value |
| `RadixTree.RadixTree.constructor` | nginx-1.16.0/src/core/ngx_radix_tree.c:15-43 | nothing is stored in a new tree |
| `QueueSort.Sort` | nginx-1.16.0/src/core/ngx_queue.c:50-80 | relinking alone turns the ring into a well-formed ring of the sorted elements |
| `QueueSort.SortingIsTheStableSort` | nginx-1.16.0/src/core/ngx_queue.c:50-80 | the result, and no other sequence, is sorted, a permutation, and keeps the order of elements that tie |
| `QueueSort.Middle` | nginx-1.16.0/src/core/ngx_queue.c:17-45 | the element of index n/2, or the head of an empty ring |
| `QueueSort.Remove` | nginx-1.16.0/src/core/ngx_queue.h:80-82 | the ring without the element |
| `QueueSort.InsertAfter` | nginx-1.16.0/src/core/ngx_queue.h:33-40 | the ring with the element behind the one given |
| `Crc32.Short` | nginx-1.16.0/src/core/ngx_crc32.h:20-36 | the loop over nibbles with the table of 16 computes the bitwise definition |
| `Crc32.Long` | nginx-1.16.0/src/core/ngx_crc32.h:39-51 | so does the loop over bytes with the table of 256 |
| `Crc32.Update` | nginx-1.16.0/src/core/ngx_crc32.h:58-70 | the register after the bytes, from any register |
| `Crc32.Table256` | nginx-1.16.0/src/core/ngx_crc32.c:34-99 | every entry of the table is eight steps of the definition |
| `Crc32.Table16` | nginx-1.16.0/src/core/ngx_crc32.c:26-31 | every entry of the table is four steps of the definition |
| `Crc32.RegisterConcat` | nginx-1.16.0/src/core/ngx_crc32.h:58-70 | updating with two pieces is one pass over both |
| `Crc32.DetectsBurst` | nginx-1.16.0/src/core/ngx_crc32.h:39-51 | texts that differ only within four adjacent bytes have the same value only if they are the same |
| `ConfText.ClauseRead` | nginx-1.16.0/src/core/ngx_conf_file.c:613-817 | any clause of the grammar (words as they stand or in quotes of either kind, with pairs of a backslash and a character and braces behind a dollar; blanks and comments between them; a semicolon, a brace, the end of the file or an ending word behind them), anywhere in a file, is read as the words it stands for, the answer its end stands for, and the lines in it |
| `ConfText.FileRead` | nginx-1.16.0/src/core/ngx_conf_file.c:502-817 | a whole file of such clauses, up to its end or the first one that is an error, is read as what they say one after the other |
| `ConfText.Replaced` | nginx-1.16.0/src/core/ngx_conf_file.c:771-803 | the lexeme of a word, with its escapes replaced, is what its pieces stand for one by one |
| `ConfText.WrittenIsRead` | nginx-1.16.0/src/core/ngx_conf_file.c:613-817 | any words at all, written in double quotes with quotes and backslashes escaped, are read back, anywhere in a file and with the lines counted |
| `ConfText.ShortNeverFills` | nginx-1.16.0/src/core/ngx_conf_file.c:555-577 | no lexeme of a file of at most 4096 bytes fills the buffer |
| `ConfText.ScanAdvances` | nginx-1.16.0/src/core/ngx_conf_file.c:531-817 | every token but the end of the file takes at least one character |
| `ConfLexer.ConfFile.ReadToken` | nginx-1.16.0/src/core/ngx_conf_file.c:502-817 | through a sliding buffer of 4096 bytes: any clause of the grammar that stands at the place of the call is answered as its words and its end say, unless a word or comment in it is too long; and in any file the answer, the words, the line and the place are those of one scan over it in memory, unless that comes to a lexeme or comment that fills the buffer, and then the answer is that it is too long |
| `ConfLexer.ConfFile.ReadAll` | nginx-1.16.0/src/core/ngx_conf_file.c:502-817 | the same for all tokens of a file: a file of clauses is answered as they say |
| `ConfLexer.ConfFile.Refill` | nginx-1.16.0/src/core/ngx_conf_file.c:555-610 | what was read of the lexeme goes to the front, more of the file follows it, and the place in the file is the same |
| `ConfLexer.ConfFile.CopyWord` | nginx-1.16.0/src/core/ngx_conf_file.c:771-803 | the copying loop gives the lexeme with its escapes replaced, also where a backslash is its last character |
| `Inet6.Inet6Addr` | nginx-1.16.0/src/core/ngx_inet.c:64-177 | a text is accepted exactly when it has a form of the grammar: eight words of one to four digits with colons between, or less with a double colon; dots in the place of the last two, and nothing behind the last colon only with a double colon; one colon more may stand in front. The bytes are those of the form |
| `Inet6.MoveUp` | nginx-1.16.0/src/core/ngx_inet.c:158-168 | the bytes behind the double colon move up, and zeros take their place |
| `Inet6.InetAddr` | nginx-1.16.0/src/core/ngx_inet.c:19-59 | a text is accepted exactly when it is four octets below 256 with dots between, any of which may be empty, and not all 255; the value is theirs |
| `Inet6.Accepted` | nginx-1.16.0/src/core/ngx_inet.c:79-176 | the texts with a form of the grammar are those that are read, with the bytes of the form |
| `Inet6.DottedAccepted` | nginx-1.16.0/src/core/ngx_inet.c:30-58 | the same for dotted texts |
| `Inet6.SevenAndGap` | nginx-1.16.0/src/core/ngx_inet.c:151-170 | seven words with a double colon behind them are refused, though the double colon stands for one word of zeros |
| `Inet6.WriteAndRead` | nginx-1.16.0/src/core/ngx_inet.c:64-369 | writing an address and reading the text gives it back, but for the two |
| `Inet6.QuadRead` | nginx-1.16.0/src/core/ngx_inet.c:19-59 | four bytes written with dots are read back, except that 255.255.255.255 stands for an error |
| `Inet6.FindRun` | nginx-1.16.0/src/core/ngx_inet.c:306-332 | the first one of the longest runs of zero words, if one has two words or more |
| `Inet6.Ntop` | nginx-1.16.0/src/core/ngx_inet.c:295-369 | the text has the words in hexadecimal, that run left out, and a dotted tail for mapped and compatible addresses |
| `Inet6.HexValueIs` | nginx-1.16.0/src/core/ngx_inet.c:137-148 | the sixteen digits in either case, and no other character, are read as digits, with their place as value, and the small ones are written |
| `Inet6.MappedText` | nginx-1.16.0/src/core/ngx_inet.c:340-369 | a mapped address is written ::ffff: and its last four bytes with dots |
| `Inet6.DottedWhen` | nginx-1.16.0/src/core/ngx_inet.c:334-369 | dots are written exactly for mapped addresses and for those whose first six words are zero, with a seventh that is not or with two last bytes that are not 0 and not 1 |
| `Inet6.HexIs` | nginx-1.16.0/src/core/ngx_inet.c:357-357 | a word is written in lower case, without leading zeros, and has the value of its digits |
| `Inet6.DecIs` | nginx-1.16.0/src/core/ngx_inet.c:365-365 | so is a byte in decimal |
| `Inet6.TextFits` | nginx-1.16.0/src/core/ngx_inet.h:17-18 | no text is longer than 39 characters |
| `Inet6.RoundTrip` | nginx-1.16.0/src/core/ngx_inet.c:64-369 | every address of 16 bytes is read as it was written, but for exactly ::255.255.255.255 and ::ffff:255.255.255.255, which are refused |
| `OutputChain.Context.Send` | nginx-1.16.0/src/core/ngx_output_chain.c:45-244 | for any writer and any run of calls: when copies into temporary buffers are asked for, no buffer in read-only or mapped memory is ever handed over; a buffer that needs no copy goes out itself, and only those with neither bytes nor a flag are passed over; no byte is lost, repeated, changed or moved, and no temporary buffer is filled again while its bytes are still to be sent, as long as no size is negative; the answer that all is done means that nothing waits and all bytes were sent; the one to call again means that buffers wait, or the writer or the connection still holds something; an error means that the connection failed or a size is negative; buffers wait only when all temporary ones are in use; flags are as given as long as none is on a buffer to be copied |
| `OutputChain.Context.SentIsGiven` | nginx-1.16.0/src/core/ngx_output_chain.c:218-225 | with nothing waiting and nothing to send, what was sent is what was given |
| `OutputChain.Context.SentIsPrefix` | nginx-1.16.0/src/core/ngx_output_chain.c:45-244 | at any time what was sent is the beginning of what was given |
| `OutputChain.Context.NoStall` | nginx-1.16.0/src/core/ngx_output_chain.c:168-190 | when buffers wait for a temporary one and no call failed, the connection still has bytes to take |
| `OutputChain.Context.Turn` | nginx-1.16.0/src/core/ngx_output_chain.c:90-243 | every turn of the loop but the first one that hands something over leaves less to do |
| `OutputChain.Context.Fill` | nginx-1.16.0/src/core/ngx_output_chain.c:98-216 | the inner loop ends, and keeps the text in its order; it stops with buffers waiting only at one to be copied without a temporary buffer to take, or fails, exactly when the one it comes to has a negative size; then what was on its way is lost, and nothing else |
| `OutputChain.Context.Step` | nginx-1.16.0/src/core/ngx_output_chain.c:193-215 | a copy takes as much as fits; a mark is added exactly when it is not the end of its buffer and the temporary buffer has old flags |
| `OutputChain.Context.CopyBuf` | nginx-1.16.0/src/core/ngx_output_chain.c:521-672 | the bytes copied and those left are those there were; the flags go with the last byte |
| `OutputChain.Context.GetBuf` | nginx-1.16.0/src/core/ngx_output_chain.c:445-518 | a buffer of its own memory, and no more buffers than allowed |
| `OutputChain.Context.Release` | nginx-1.16.0/src/core/ngx_buf.c:203-222 | a sent temporary buffer is empty, free and unknown to the writer; any other is dropped |
| `OutputChain.StaleFlush` | nginx-1.16.0/src/core/ngx_output_chain.c:568-572 | a run in which a flush flag that was given once is handed over twice |
| `OutputChain.Writer.UpdateSent` | nginx-1.16.0/src/core/ngx_buf.c:271-314 | all bytes are taken, or exactly as many as were sent, from the front |
| `OutputChain.Writer.Write` | nginx-1.16.0/src/core/ngx_output_chain.c:675-823 | what was handed over is what was sent and what is in the buffers; the answer is an error exactly for a negative size or when the connection is asked and fails, and that all is done exactly when there was nothing to send or nothing is left, here and in the connection |
| `WildcardKeys.AcceptBroken` | nginx-1.16.0/src/core/ngx_hash.c:712-988 | a run in which three names, one of them with a tab, are accepted and some host gets a wrong answer |

## Left out

- Slab: page size 4096, 64-bit words and a smallest chunk of 8 bytes, as `ngx_init_zone_pool` sets them; other sizes are not modelled. The mutex around the calls, `ngx_slab_calloc`, logging and the junk fill are left out.
- Slab: the three kinds of chunk pages share the code that only differs in where the bitmap lies (`Slab.Pool.TakeBit`, `Slab.Pool.ClearChunk`).
- Slab.Pool.Free: what the source does after reading a record that is not cleared memory depends on what lies there; the model stops with the result `Unread`. A caller that goes on with a broken pool is not modelled.
- RbTree: colours of a node's neighbours in memory and `ngx_rbtree_data` arithmetic are not modelled; a node is an object. The key of a removed node is cleared at the end of the call.
- Shmtx: spinning repeats the first test any number of times; process death, `ngx_shmtx_force_unlock` and the fcntl fallback are left out. The waiter word is an integer with a proved bound.
- ThreadPool: mutex and condition calls succeed; threads never exit and one event loop posts; the exit task is left out. What is done under the spinlock of the done list is one step.
- WildcardHash: `ngx_hash_init` lowers the labels that it stores, which `WildcardHash.FindElt` compares as they are; keys with capital letters are not modelled, and `ngx_hash_add_key` gives none.
- WildcardHash: each hash is the list of its elements in order of insertion, and `ngx_hash_find` finds the first one with the label; pointers with two low bits are a datatype. Memory allocation and bucket sizes are left out; `HashLayout` has them for an exact-match hash.
- WildcardHash.WildcardInit: a list with a key that is just the label of its group, behind the first of the group, makes the source compute a length below zero; such lists are excluded.
- WildcardKeys: all names are added with the flag for wildcards and are not shared with a read-only name that is a wildcard; a name ends with a zero byte, so that the look at the character behind it is harmless. The library's sort is any permutation that is sorted. The tables of names in use are one list each.
- HashLayout.Init: bucket sizes above 32 KiB are excluded, where the 16-bit totals may wrap; so is a table without names and with buckets of less than 24 bytes, for which the source divides by zero. When no size fits, the source goes on with the largest size; `HashLayout.Lay` covers that as long as the totals stay below 2^16. Allocation succeeds.
- HashLayout.Find: values are not NULL, since NULL ends a bucket.
- WildcardHash.FindWcTail: keys of this tree never end with a dot, which `ngx_hash_add_key` sees to; the mark of such a key in a value is not modelled.
- OpenFileCache: vnode events, directio, read-ahead, symlink checks, the call without a cache and `test_only` are left out; the red-black tree is a map from names. What a caller that cleans up after the cache was destroyed touches is not modelled.
- Calendar: time zones, the cached strings, cookies and the wait for the lock are left out; the parser's tests shared by the forms are written once per form.
- RadixTree: masks are contiguous and given as their length; values differ from the one that stands for none; allocation succeeds; preallocation and the tree for 128 bits are left out.
- RadixTree.RadixTree.Delete: what comes of reading the parent of the root, which is NULL, is not modelled; the result is `NoParent` and the tree stays as it is.
- QueueSort: the comparison sees the elements only by their identity and does not change them.
- Crc32: `ngx_crc32_table_init`, which copies the small table to an aligned address, is left out; the 256 entries are sixteen rows.
- ConfText.ClauseRead: a file that ends in a backslash outside any other pair is not a text of the grammar; the scan covers it.
- ConfLexer: reading succeeds and the file does not change meanwhile; parameters given without a file, the dump and memory allocation are left out.
- Inet6: `ngx_sprintf` is the two formats needed; buffers are large enough.
- OutputChain: all buffers are in memory; files, `sendfile` limits, asynchronous reads, alignment and failing allocation are left out, and so are the `recycled` flag and the `sync` flag of a buffer with bytes. Chains are sequences of buffers; their links are not modelled.
- OutputChain.Context.Send: input buffers do not have the tag of the chain, are not with it already, and do not lie in the memory of its temporary buffers. What a negative size makes the source lose is kept in `lost`; that it is lost only then is one way. `NGX_DONE`, which `ngx_chain_writer` does not return, is left out.
