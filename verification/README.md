# A verified model of gitstatusd's engine

gitstatusd answers "what is the state of this repository?" by comparing the git index with the working tree. It does
this with a parallel, caching scan, so most of its difficult code is a fast form of something simple: a single-pass
merge instead of set operations, a cached listing instead of a fresh one, a handle opened relative to another one
instead of from the root, many diffs that stop early instead of one complete diff. This project models that engine and
proves that each fast form gives the answer of the simple one.

How the modules fit together:

- `ByteStrings`, `Paths`: byte strings in strcmp order, the comparators, sorting, and the directories of a path.
- `DirTree`, `Merge`, `Handles`, `Scan`, `Candidates`: `index.cc`, from building the directory tree to the sorted list
  of dirty candidates. `NestedIndex` builds the indices on which a CHECK of `InitSplits` fails.
- `Shards`, `Counting`, `IndexStats`: `repo.cc`, the split of the path space, counting with early termination, and the
  reuse of staged counts.
- `ThreadPool`: the scheduler, as a step relation for any number of workers and waiting callers.
- `Bits`, `Arena`: the bump allocator and its alignment arithmetic.
- `DirSort`: the in-place 64-bit sort key of `dir.cc`.
- `TagDb`, `PackedRefs`: tag lookup and the packed-refs parser.
- `Request`: framing and parsing of requests.

Code that works step by step is modelled by methods and classes with loops (`InitDirs`, the handle stack, the arena,
`SortEntries`, `ParsePack`, ...); each is proved against a specification, and
what the source promises is proved of that specification.
Concurrent code is modelled as steps that interleave freely: each locked section or atomic operation is one step, and a
notify after unlocking is a step of its own. libgit2 and the operating system are parameters: a file system is a
labelled graph with a readable predicate, a diff is a sequence of deltas per shard, `operator new` returns any aligned
memory that overlaps no block. Fixed-width arithmetic matters only in `Bits` and `Arena` and is written out there.

Some plain claims are false of the code; for each the model has a lemma that shows a failing input and a lemma that
says exactly when the claim holds:

- `CHECK(splits_.size() <= kNumShards + 1)` can fail. It holds for every index of a given total weight if and only if
  total < 8192 * threads or total mod (16 * threads) <= 1 (`SplitCheckFailsOnIndex`, `SplitCheckFails`,
  `SplitCheckOverIndices`).
- The comparison of a subdirectory with a listed name subtracts plain `char`, while both lists are sorted by unsigned
  bytes. With signed `char` the merge is right on every listing if and only if the subdirectory names are ASCII
  (`SignedCharsMisplace`, `SignedCharsNeedAscii`, `PlainCmpIsStrcmp`).
- Move assignment onto a non-empty arena drops its old blocks; memory is conserved if and only if the target was empty
  (`Arena.MoveFrom`).
- A request whose directory starts with ':' cannot be told from a GIT_DIR request (`ParseUndoesRender`).

The comment at gitbash/src/repo.h:71 says that a null HEAD means nothing is staged; the code counts every index entry
that is not intent-to-add (gitbash/src/repo.cc:195-212), and the model follows the code.

## Model

| member | source | states |
|---|---|---|
| ByteStrings.CmpViews | gitbash/src/string_cmp.h:60-65 | comparing the common length and then the lengths is strcmp order: negative iff less, zero iff equal |
| ByteStrings.CmpViewCStr | gitbash/src/string_cmp.h:67-72 | the loop over plain chars returns the difference at the first place where the strings differ, terminator included; zero iff the strings are equal |
| ByteStrings.PlainCmpIsStrcmp | gitbash/src/string_cmp.h:67-72 | its sign is strcmp order if and only if chars are unsigned or the two deciding bytes lie on the same side of 128 |
| ByteStrings.PlainCmpDiffersFromStrcmp | gitbash/src/string_cmp.h:67-72 | a concrete pair of names that signed chars order the wrong way round |
| ByteStrings.StrictlySortedIsCanonical | gitbash/src/index.cc:450-453 | a strictly sorted sequence is determined by its elements, so sort-and-unique cannot depend on the input order |
| ByteStrings.SortUniqueIsCanonical | gitbash/src/index.cc:450-453 | sorting and removing neighbours that are equal gives a strictly sorted sequence with the same elements |
| ByteStrings.SortIfNeeded | gitbash/src/index.cc:342-344 | sorting only when std::is_sorted says no still gives a sorted permutation, strictly sorted when there were no duplicates |
| ByteStrings.FoldedEqual | gitbash/src/string_cmp.h:38-44 | case-insensitive strings are equal iff they differ only in the case of ASCII letters |
| Shards.DecrementedSlash | gitbash/src/repo.cc:97-102 | for every string p: p sorts before "dir/" iff p, cut to that length, does not sort after "dir." |
| Shards.ContainsIsInterval | gitbash/src/repo.cc:97-102 | Contains holds iff start_i <= path < start_(i+1), in either case mode |
| Shards.ShardsPartitionAllStrings | gitbash/src/repo.cc:97-102 | every string whatsoever lies in exactly one shard |
| Shards.ShardOfIsMonotone | gitbash/src/repo.cc:296-307 | a path that does not sort before another never belongs to an earlier shard |
| Shards.SplitIndicesIncrease | gitbash/src/repo.cc:406-407 | the split points (i + 1) * n / shards are strictly increasing indices below n |
| Shards.SplitIndicesAreEqualParts | gitbash/src/repo.cc:406-407 | split point r of part i satisfies r * count <= i * n < (r + 1) * count |
| Shards.CutLast | gitbash/src/repo.cc:412-421 | cutting the last shard at a directory keeps every property CHECKed at the end |
| Shards.CutShards | gitbash/src/repo.cc:403-446 | the loop yields shards that satisfy all CHECKs, no more than split points; every shard but the first starts at a split entry with that entry's directory, and no split directory is dropped unless it does not come after the start of a shard |
| Shards.Repo.UpdateShards | gitbash/src/repo.cc:381-447 | for every index and thread count the CHECKs hold; one shard for at most 512 entries or a single thread, otherwise cuts at the equal parts of the index, as many as the smaller of size / 512 + 1 and twice the threads |
| Shards.Repo.StartDirtyScan | gitbash/src/repo.cc:296-323 | for every sorted path list the shard cursor stays in range, the loop ends, and the batches are consecutive, cover each path once and lie in distinct shards |
| Shards.ShardCountsAddUp | gitbash/src/repo.cc:351-361 | counting any flag over the index ranges of the shards counts each entry exactly once |
| DirTree.CommonDir | gitbash/src/index.cc:48-57 | returns the longest directory that both paths go through, and its depth |
| DirTree.CommonDirIsOnStack | gitbash/src/index.cc:352-355 | for a sorted index CHECK(common_depth <= prev->depth) holds although prev->path.ptr points into a longer path |
| DirTree.PopDir | gitbash/src/index.cc:338-348 | its CHECKs hold; the directory list that will come out does not change, and the popped directory's subdirs become strictly sorted |
| DirTree.OpenDirs | gitbash/src/index.cc:359-369 | opens exactly the missing directories of the entry; afterwards the top of the stack is the entry's own directory |
| DirTree.InitDirs | gitbash/src/index.cc:330-383 | for every sorted index the result is exactly the directory tree: each directory of an entry once, files and subdirs complete and sorted, depth and basename right; total_weight is twice the number of directories, less one, plus the number of entries |
| DirTree.FilesInBasenameOrder | gitbash/src/index.cc:371-373 | the files of each directory are in basename order |
| DirTree.EachEntryOnce | gitbash/src/index.cc:371-373 | each index entry is a file of exactly one directory |
| DirTree.DepthGrowsByAtMostOne | gitbash/src/index.cc:376-380 | in the list a directory's parent is its predecessor or an ancestor of it, so depth grows by at most one |
| Merge.MatchFile | gitbash/src/index.cc:262-279 | the file cursor loop says whether the entry is an index file and has reported exactly the dirty files passed so far, conflict stages included |
| Merge.MatchSubdir | gitbash/src/index.cc:283-291 | the subdirectory cursor stops at the first subdirectory that does not compare less, and matches iff that one compares equal |
| Merge.AddUnmatched | gitbash/src/index.cc:178-189 | an entry in neither list is reported and remembered with its directory's path, a directory with a slash, ".git/" not at all |
| Merge.MergeListing | gitbash/src/index.cc:254-300 | the candidates are exactly the files that are absent, unreadable or modified and the listed names in neither list, a directory with a slash appended, the directory ".git" not at all |
| Merge.UntrackedIsExact | gitbash/src/index.cc:259-298 | with unsigned chars or ASCII subdirectories the pass finds exactly the listed names in neither list |
| Merge.SignedCharsMisplace | gitbash/src/string_cmp.h:67-72 | for every non-ASCII subdirectory there is a listing on which signed chars make the pass report that subdirectory as untracked |
| Merge.SignedCharsNeedAscii | gitbash/src/index.cc:283-291 | with signed chars the pass is right on all listings iff all subdirectory names are ASCII |
| Merge.MergeIsSetDefinition | gitbash/src/index.cc:254-300 | membership in the merge's candidates is the set definition of a dirty path |
| Merge.UntrackedEntry | gitbash/src/index.cc:293-297 | in bytes: an untracked directory is reported with a slash, an untracked file without, and dir + ".git/" never |
| Handles.FindLast | gitbash/src/algorithm.h:29-33 | returns the last match, or the start when there is none |
| Handles.TailNames | gitbash/src/index.cc:118-130 | the names cut off the path are the basenames of the innermost directories and then the remaining path or "."; at most nfds + 1 |
| Handles.OpenFromRootByName | gitbash/src/index.cc:212-218 | the reference name by name: the root is itself, each name is one step, and the node must be readable |
| Handles.OpenRelative | gitbash/src/index.cc:202-209 | opening a basename relative to a handle of the parent is opening the full path from the root |
| Handles.ParentIsAncestor | gitbash/src/index.cc:202-204 | the parent of the next directory is the ancestor of the previous one at distance prev.depth + 1 - depth, and that is not negative |
| Handles.ShiftKeepsSlots | gitbash/src/index.cc:205-209 | closing, rotating and storing leave every slot empty or at the right ancestor of the new directory |
| Handles.HandleStack.constructor | gitbash/src/index.cc:160-162 | five empty slots, and only the root's handle is open |
| Handles.HandleStack.OpenDir | gitbash/src/index.cc:106-108 | opens the node the path leads to from the handle's node, or returns -1 and changes nothing |
| Handles.HandleStack.CloseSlot | gitbash/src/index.cc:163-168 | the handle it closes is open, and the open handles stay the caller's and those in the slots, each in one slot |
| Handles.HandleStack.CloseRange | gitbash/src/index.cc:169-170 | closes the first slots and leaves the others as they were |
| Handles.HandleStack.OpenTail | gitbash/src/index.cc:110-143 | afterwards slot i holds the i-th ancestor of the parent of the first directory or is empty; slots stay empty only if some ancestor cannot be opened; no handle leaks |
| Handles.HandleStack.Store | gitbash/src/index.cc:206-209 | closing, rotating and storing keep exactly the handles that are still needed, each in its new slot |
| Handles.HandleStack.EnterRelative | gitbash/src/index.cc:203-209 | the relative branch yields the handle that opening the full path would, and rotates the ancestors into place |
| Handles.HandleStack.EnterFromRoot | gitbash/src/index.cc:210-219 | the other branch closes everything and opens the full path, or duplicates the root's handle |
| Handles.HandleStack.Enter | gitbash/src/index.cc:202-224 | for every next directory slot 0 is the node its full path denotes, every other slot the matching ancestor or empty; with a handle of the parent at hand the slots shift, and on failure all are closed |
| Scan.StatFiles | gitbash/src/index.cc:191-200 | reports exactly the files that cannot be statted or are modified |
| Scan.FilesAgree | gitbash/src/index.cc:191-200 | on an unchanged disk statting all files and merging with the listing report the same files |
| Scan.ScanDir | gitbash/src/index.cc:220-300 | one directory: the candidates and the remembered stat and entries for every outcome of open, fstat and ListDir and every setting of the cache |
| Scan.TreeDirIsGood | gitbash/src/index.cc:254-257 | every directory that InitDirs builds meets what the merge needs: sorted files, strictly sorted subdirs with proper names |
| Scan.ScanDirs | gitbash/src/index.cc:145-304 | over any slice each directory is scanned through the node of its full path, CHECKs hold, states outside the slice are untouched, and all opened handles are closed again |
| Scan.CacheOkStep | gitbash/src/index.cc:231-252 | one scan keeps: the remembered entries are those of a disk on which the directory had the remembered stat |
| Scan.CacheStaysOk | gitbash/src/index.cc:231-252 | the same over every run in which the cache flag is not false |
| Scan.CacheIsUsed | gitbash/src/index.cc:231-252 | a listed directory is remembered with its stat, and meeting that stat again with the cache on makes the listing irrelevant |
| Scan.ReportedIsFresh | gitbash/src/index.cc:226-300 | a scan with a sound cache reports exactly what listing afresh would |
| Scan.CacheAgreesWithRescan | gitbash/src/index.cc:226-300 | over every run of scans of a changing disk, with a flag that settles once, each directory reports what a fresh listing gives |
| Scan.StatesAdvance | gitbash/src/index.cc:242-252 | the states that a scan leaves are those the next one starts from |
| Scan.RunAgreesWithRescan | gitbash/src/repo.cc:104-116 | the same for all directories together, starting from the flag that the constructor's background task settles |
| Scan.FreshIsDirtyIn | gitbash/src/index.cc:173-301 | what a directory reports afresh is what the index and the disk alone say: itself if unreadable, index entries in it that do not stat clean, and listed names the index does not know |
| Scan.TreeIsDirty | gitbash/src/index.cc:173-301 | all directories together report exactly the dirty paths of the index's directories |
| Candidates.InitSplits | gitbash/src/index.cc:385-405 | splits strictly increase from 0 to the number of directories; every shard but the last weighs at least max(512, total / (16 * threads)), every shard without its last directory less; at most 16 * threads + 2 splits for up to 32 threads |
| Candidates.BalancedIsUnique | gitbash/src/index.cc:393-401 | these weights leave no choice about where to cut |
| Candidates.ShardCountBound | gitbash/src/index.cc:393-401 | at most total_weight / shard_weight + 1 shards |
| Candidates.AtMostOneTooMany | gitbash/src/index.cc:402 | with up to 32 threads the limit of the CHECK is exceeded by at most one |
| Candidates.SplitCheckCondition | gitbash/src/index.cc:402 | the CHECK holds for every list of directory weights (each at least two) of a given total iff total < 8192 * threads or total mod (16 * threads) is at most one |
| Candidates.SplitCheckCanFail | gitbash/src/index.cc:402 | the weights 512 sixteen times and then 2 make it fail with one thread |
| NestedIndex.ChainIsTree | gitbash/src/index.cc:330-383 | for any weights of at least two there is a strictly sorted, well-formed index whose directories weigh exactly that, in that order |
| NestedIndex.ChainHasOneTree | gitbash/src/index.cc:330-383 | whatever list of directories is the tree of that index, it has these weights in this order |
| NestedIndex.SplitCheckOverIndices | gitbash/src/index.cc:385-402 | over indices: the CHECK holds for every index of a total weight iff total < 8192 * threads or total mod (16 * threads) is at most one |
| NestedIndex.SplitCheckFails | gitbash/src/index.cc:402 | for every thread count and every other total weight there is an index that makes the CHECK fail |
| NestedIndex.SplitCheckFailsOnIndex | gitbash/src/index.cc:402 | the index of sixteen nested directories of weight 512 and one of weight 2 makes it fail with one thread |
| Candidates.DirsWeighAtLeastTwo | gitbash/src/index.cc:59 | every directory of a non-empty index weighs at least two |
| Candidates.GatherStepOk | gitbash/src/index.cc:424-441 | each locked section keeps: inflight counts the unfinished jobs and what is inserted is what finished scans found; CHECK(inflight) holds |
| Candidates.GatherRunOk | gitbash/src/index.cc:420-447 | the same after every interleaving |
| Candidates.GatherIsComplete | gitbash/src/index.cc:444-447 | when the waiting thread sees inflight == 0, every candidate of every shard is there and nothing else |
| Candidates.PartsCover | gitbash/src/index.cc:420-442 | the slices together report exactly what the directories report |
| Candidates.ScheduleIndependent | gitbash/src/index.cc:407-454 | any thread counts, splits and completion orders give the same sorted duplicate-free sequence |
| Candidates.Index.constructor | gitbash/src/index.cc:320-328 | builds the tree and balanced splits, remembers nothing, and meets the CHECK iff the weights do |
| Candidates.HistoryGrows | gitbash/src/index.cc:407-454 | one more scan leaves the states of the longer history, and what it reported is what is dirty |
| Candidates.Index.GetDirtyCandidates | gitbash/src/index.cc:407-454 | for every order of the shards and every history of scans the result is the strictly sorted list of exactly the dirty paths that index and disk alone determine, while stats determine listings and the cache flag settles |
| Counting.InvStep | gitbash/src/repo.cc:245-265 | each atomic step keeps: every delta dealt with is counted or lost, and a class loses deltas only once its limit is reached |
| Counting.RunKeepsInv | gitbash/src/repo.cc:245-265 | the same in every state of every interleaving |
| Counting.Answer | gitbash/src/repo.cc:256-264 | a callback raises its own counter by one and goes on below the limit; otherwise it answers "skip this type" iff the other counter is below its limit, else "abort" |
| Counting.CountIsOfKind | gitbash/src/repo.cc:281-293 | the deltas counted for each counter are those of the statuses the callbacks name, as a multiset |
| Counting.KindsCover | gitbash/src/repo.cc:336-348 | every staged delta is staged or conflicted; every dirty delta is unstaged, untracked or conflicted |
| Counting.EarlyTerminationIsExact | gitbash/src/repo.cc:281-294 | min(counter, limit) equals min(number of deltas of that kind, limit) for both counters, however callbacks interleave and deltas are suppressed |
| Counting.ReportedCounts | gitbash/src/repo.cc:231-237 | written out: staged is all deltas less the conflicted, unstaged is all less the untracked and the conflicted |
| Counting.SubCountersAreExact | gitbash/src/repo.cc:336-349 | the counts of added and deleted files are exact while the main limit is not reached |
| IndexStats.ScanCounts | gitbash/src/repo.cc:326-379 | a finished staged scan leaves counters that are right up to the limits |
| IndexStats.StagedCache.constructor | gitbash/src/repo.cc:104 | starts with nothing cached |
| IndexStats.StagedCache.CountEntries | gitbash/src/repo.cc:196-205 | counts the entries that are not intent-to-add |
| IndexStats.StagedCache.GetIndexStats | gitbash/src/repo.cc:127-243 | over every sequence of calls with changing head, index and switches the reported staged and conflicted counts are min(deltas of the current head and index, this call's limit); without a change the kept counters suffice; the switch turns everything to zero |
| ThreadPool.ConservedStep | gitbash/src/thread_pool.cc:27-70 | each scheduled function is queued, held by one worker or finished, exactly one of these |
| ThreadPool.OnTimeStep | gitbash/src/thread_pool.cc:48-58 | what is held or finished has started, not before the time it was queued with |
| ThreadPool.NeverEarly | gitbash/src/thread_pool.cc:27-35 | a function given to Schedule(t) gets the next index and in every later state is queued with time t, or is held or finished and the clock has reached t; its start is not before t |
| ThreadPool.CountedStep | gitbash/src/thread_pool.cc:38-58 | num_inflight_ is the number of workers outside Next |
| ThreadPool.OneSleeperStep | gitbash/src/thread_pool.cc:59-66 | have_sleeper_ holds iff a worker sleeps, and at most one does; the assert at line 65 holds |
| ThreadPool.SleeperInTimeStep | gitbash/src/thread_pool.cc:27-66 | the sleeper's deadline is not after the earliest item, or a notify for it is on its way |
| ThreadPool.SleepsUntilEarliest | gitbash/src/thread_pool.cc:63-64 | a worker sleeps until exactly the time of the earliest item, which lies ahead |
| ThreadPool.WakeUpComingStep | gitbash/src/thread_pool.cc:27-58 | without a sleeper, queued work and a blocked worker imply a pending notify, a worker about to notify or one about to re-check |
| ThreadPool.WaitersStep | gitbash/src/thread_pool.cc:39-75 | a caller of Wait is blocked only while the pool is not idle |
| ThreadPool.RunKeepsInv | gitbash/src/thread_pool.cc:11-75 | all of these in every state of every run, for any number of workers and callers |
| ThreadPool.NoLostWakeUps | gitbash/src/thread_pool.cc:27-70 | with queued work and a worker blocked on cv_, a sleeper wakes in time or is being woken, an awake worker will re-check, or a notify is undelivered |
| ThreadPool.DueWorkStarts | gitbash/src/thread_pool.cc:42-58 | once the earliest item is due, one or two steps of the pool itself start it |
| ThreadPool.QueuedWorkStarts | gitbash/src/thread_pool.cc:27-70 | from every reachable state with queued work, the clock reaching the earliest item's time and at most two further steps start it |
| ThreadPool.WaitReturnsWhenDone | gitbash/src/thread_pool.cc:72-75 | Wait returns only with nothing queued or running and everything scheduled finished |
| ThreadPool.NoMissedIdle | gitbash/src/thread_pool.cc:39-41 | whenever the pool is idle, no caller of Wait is left blocked |
| ThreadPool.IdleCallerReturns | gitbash/src/thread_pool.cc:72-75 | in every reachable idle state the next step of a caller of Wait returns |
| ThreadPool.WaitReturns | gitbash/src/thread_pool.cc:37-75 | from every reachable state steps of the pool itself empty the queue, let every function return and take each waiting caller to its return |
| ThreadPool.NoOvertaking | gitbash/src/thread_pool.h:43-48 | of two items queued together, the one earlier in (t, idx) leaves the queue first |
| ThreadPool.StartsOnceOnTime | gitbash/src/thread_pool.cc:50-58 | a running function started at or after its time, is not queued or finished, and runs on one worker only |
| Bits.AlignIsLeastMultiple | gitbash/src/arena.h:192 | Align is the least multiple of a power of two that is not below n |
| Bits.AlignOne | gitbash/src/arena.h:168-177 | alignment 1 changes nothing, so allocating TipSize() bytes returns Tip() |
| Bits.NextPow2IsLeast | gitbash/src/bits.h:25 | NextPow2 is the least power of two that is not below n |
| Arena.NewSizeIs | gitbash/src/arena.cc:82-95 | a request above the threshold gets a block of exactly the needed size; otherwise at least the least power of two above the top block, between the two limits |
| Arena.BlocksDouble | gitbash/src/arena.h:43-51 | the first block has min_block_size, later ones double until max_block_size |
| Arena.BlockFits | gitbash/src/arena.cc:111-115 | a block of the size AddBlock looks for fits the aligned request, for alignments on either side of max_align_t |
| Arena.AboveTipIsFree | gitbash/src/arena.h:83-90 | what lies above the tip of the top block overlaps no live allocation |
| Arena.PushSmall | gitbash/src/arena.cc:98-104 | a block smaller than the reusable ones goes last and keeps all invariants |
| Arena.PushLarge | gitbash/src/arena.cc:105-108 | a block as large joins the reusable ones, a larger one replaces them; the swap keeps all invariants |
| Arena.AdvanceKeeps | gitbash/src/arena.cc:87-91 | the next reusable block has the same size and is empty; the assert at line 88 holds |
| Arena.Arena.constructor | gitbash/src/arena.cc:39-41 | an empty arena is valid and owns nothing |
| Arena.Arena.AddBlock | gitbash/src/arena.cc:81-109 | afterwards the top block is empty and large enough, the invariants of arena.h hold, and ownership grows by the new block or not at all |
| Arena.Arena.Allocate | gitbash/src/arena.h:83-92 | the result is aligned, inside an owned block and apart from every live allocation; the fast path only moves the tip |
| Arena.Arena.AllocateSlow | gitbash/src/arena.cc:111-116 | the single retry always succeeds |
| Arena.Arena.PlaceAtTip | gitbash/src/arena.h:85-89 | places the request at the first aligned address at or after the tip |
| Arena.Arena.Reuse | gitbash/src/arena.cc:65-79 | ends every allocation, keeps at most num_blocks reusable blocks and frees exactly the others |
| Arena.Arena.MoveFrom | gitbash/src/arena.cc:50-63 | takes over blocks and allocations and leaves the source empty; memory is conserved iff the target was empty |
| DirSort.KeyOrder | gitbash/src/dir.cc:64-78 | the swapped 64-bit key orders eight bytes as memcmp does |
| DirSort.TerminatedOrder | gitbash/src/dir.cc:84-89 | distinct NUL-terminated names are ordered by any bytes that extend them past their NULs |
| DirSort.ComparatorIsStrcmp | gitbash/src/dir.cc:84-89 | the key compare followed by 256 bytes from offset 5 is strcmp order on distinct names |
| DirSort.SwapBytes | gitbash/src/dir.cc:72-78 | reverses the first eight bytes at every pointer and changes nothing else |
| DirSort.SwapTwice | gitbash/src/dir.cc:81-91 | swapping again, in whatever order the pointers now come, restores the buffer |
| DirSort.SwappedNames | gitbash/src/dir.cc:81-89 | in the swapped buffer each name can still be read, although windows may reach past its NUL |
| DirSort.SortPtrsSorts | gitbash/src/dir.cc:84-89 | sorting with the comparator leaves the names strictly increasing |
| DirSort.SortEntries | gitbash/src/dir.cc:80-91 | the pointers are permuted into strcmp order of their names, and the buffer ends as it began |
| TagDb.IsLooseTag | gitbash/src/tag_db.cc:290-293 | binary search finds exactly the loose tags |
| TagDb.Bound | gitbash/src/tag_db.cc:141 | lower and upper bound split the list sorted by id around the commit |
| TagDb.LooseTag | gitbash/src/tag_db.cc:123-131 | the greatest loose tag that points to the commit, or the empty string |
| TagDb.ByName | gitbash/src/tag_db.cc:133-139 | walking backwards by name to the first match gives the greatest matching unshadowed name |
| TagDb.ById | gitbash/src/tag_db.cc:140-145 | so does the maximum over the range with this id |
| TagDb.AnswerIsUnique | gitbash/src/tag_db.cc:119-148 | there is only one greatest tag, so two answers agree |
| TagDb.SortTagsSorts | gitbash/src/tag_db.cc:270-283 | the sorts by name and by id give sorted lists |
| TagDb.IsSortedByName | gitbash/src/tag_db.cc:270 | std::is_sorted holds iff every pair is in order |
| TagDb.TagIndex.Load | gitbash/src/tag_db.cc:270-283 | afterwards the list by name is a sorted permutation of the file's tags, and the list by id is still to be sorted |
| TagDb.TagIndex.FinishSort | gitbash/src/tag_db.cc:276-282 | the background task sorts the list by id and leaves the other one alone |
| TagDb.TagIndex.TagForCommit | gitbash/src/tag_db.cc:119-148 | before and after the background sort the answer is the greatest name among matching loose tags and matching packed tags that no loose tag shadows |
| PackedRefs.UnhexUndoesHex | gitbash/src/tag_db.cc:49-57 | the table undoes hexadecimal printing |
| PackedRefs.UnhexDigits | gitbash/src/tag_db.cc:49-57 | letters of either case stand for ten to fifteen |
| PackedRefs.ParseOid | gitbash/src/tag_db.cc:83-88 | the loop yields the bytes that forty digits stand for |
| PackedRefs.StripTagAt | gitbash/src/tag_db.cc:90-95 | recognises exactly refs/tags/ names without reading past a short name's NUL |
| PackedRefs.EndRef | gitbash/src/tag_db.cc:254-255 | the NUL written at the newline or carriage return makes the ref a C string and touches nothing outside it |
| PackedRefs.ParseLineAt | gitbash/src/tag_db.cc:247-263 | one line in the buffer gives the ref, the peeled id when present and the next line, and leaves the rest of the buffer alone; every failed VERIFY is reported |
| PackedRefs.ParsePack | gitbash/src/tag_db.cc:213-268 | for every buffer the pointers found denote exactly the tags of the text, so the later in-place edits damage no earlier name |
| PackedRefs.LineRefused | gitbash/src/tag_db.cc:248-262 | a line is refused iff the forty digits, the space or the newline is missing, or a '^' line is cut short |
| PackedRefs.EntryParses | gitbash/src/tag_db.cc:248-263 | a printed entry, with either line end and with or without a peeled line, parses back |
| PackedRefs.ParseUndoesPrint | gitbash/src/tag_db.cc:213-268 | every headed file parses to exactly its refs/tags entries, with the peeled id where there is one |
| PackedRefs.NoHeaderNoTags | gitbash/src/tag_db.cc:228-231 | a file without the header line gives no tags |
| Request.ParseRequest | gitbash/src/request.cc:39-58 | a parsed request's fields hold no separator, and its directory starts with ':' only in a GIT_DIR request |
| Request.RequestRefused | gitbash/src/request.cc:42-55 | a request is refused iff it has no unit separator, or a third field that is not exactly "0" or "1" |
| Request.ParseUndoesRender | gitbash/src/options.cc:138-147 | parsing undoes the documented layout iff the id and directory hold no unit separator and a plain directory does not start with ':' |
| Request.RequestReader.ReadChunk | gitbash/src/request.cc:119-126 | appends a chunk and cuts off the message that ends in it, losing no byte |
| Request.RequestReader.ReadRequest | gitbash/src/request.cc:83-128 | the bytes held before and read now are the returned message, its separator and the bytes still held; it reads no chunk after the one that ends the message and returns at the first timeout |
| Request.FirstFrame | gitbash/src/request.cc:84-90 | a message ends at the first byte 30, and the rest is framed alike |
| Request.RequestReader.ReadAll | gitbash/src/request.cc:83-128 | the messages returned over all calls depend on the bytes only, not on chunk sizes or timeouts |

## Left out

- libgit2 and system calls: diffs, ref lookup, index reading, stat and directory listing are parameters with the assumptions stated in `ValidDisk`, `GoodListing`, `ScanEnds` and `FreshMemory`.
- `IsModified` and the result of fstatat: one predicate per file and node; only that conflict stages are always modified is used.
- Case-insensitive mode of `InitDirs`, the merge and the candidates; the shard results cover both modes.
- A scan that fails, and the `error_` flag and exceptions that report it; `RunAsync`, `DecInflight` and `Wait` of repo.cc.
- The thread pool's destructor and `exit_`; memory ordering of the atomics.
- The process abort when the CHECK at gitbash/src/index.cc:402 fails: `Index.constructor` goes on.
- PackedRefs.ParseUndoesPrint: for refs without NUL or newline that do not end in a carriage return, as git's ref names never do; what the parser does with any other text is stated by ParsePack.
- PackedRefs.ParseOid: bytes of 128 and above read as zero digits; with signed `char` the source indexes outside its table.
- Arena.Arena.Allocate: for requests whose addresses and sizes stay below 2^64; the source does not check for overflow.
- DirSort.SortEntries: assumes the layout of directory records, in which the first eight bytes at a name overlap no other name; pointers are offsets into one buffer.
- `std::sort` is represented by an insertion sort; only the sorted permutation it returns is used.
- Descriptor numbers are never reused in the handle table.
- Counts of skip-worktree and assume-unchanged entries across calls (only their split over shards).
- End of input, lock and parent checks in `ReadRequest`, which exit the process.
- `TagHasTarget`, reading the packed-refs file in `UpdatePack`, `RepoCache`, `CheckDirMtime`, options, logging, responses, the POSIX and macOS `ListDir`: I/O or single-branch code with easy claims.
- dash-to-panel, the FreeRDP files, windows-tool and the scripts: user interface, headers and I/O.
