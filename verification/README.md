# ihate-work: a model of its stateful core

This project models the parts of `ihate_work` whose correctness rests on state or on
interleavings, and proves what they are for.

* **Variant dictionary** (`Connectivity`, `Forest`, `UnionFind`, `BuildDict`, `OpenccParser`,
  `VariantMap`, with `Strings`, `Sorting` and `OrderedDict` for the library functions used).
  OpenCC lines become character pairs, an in-place union-find with path halving merges them, and
  the clusters are written in a canonical order and loaded into a translate table. The reference
  meaning throughout is plain graph connectivity of the pairs.
* **Worker pools** (`RecyclingPool2`, `RecyclingPool`, `Executors`, `CountdownWorker`, `LokyExecutor`,
  `Workers`, `CallCache`). Each block under a lock is one atomic step of a transition system
  whose other steps belong to the environment: a task completes, a retirement thread moves, a
  wait returns. Properties are stated for every run. The classes have the fields of the source,
  and each method is proved to be one step.
* **Prefix tree** (`Trie`, `Treemap`, `PrefixCounter`). A tree of objects updated in place,
  proved equal to a counting specification over the added tuples; the treemap's stack loop and
  its string ids.
* **Iterator chain** (`Stages`, `IteratorChain`, `Grouping`). Generators on the heap that pull
  from one another, proved equal to eager list functions, including how much they pull; the
  grouping, counting and uniqueness functions as views of one partition.

Strings are sequences of Unicode scalar values. A Python dictionary is an insertion-ordered list
of keys with a map. A raised exception is a result value or a status.

## What the code does that its callers may not expect

Each of these is proved, with the exact condition where there is one.

* `RecyclingPool2.recycle_if_needed` after `__exit__` installs an open pool that no `__exit__`
  call answers for whenever the left-over task count has reached the threshold
  (`LateRecycleLeaks`, with the run `LateRecycleExample`).
* When `__exit__` calls of a `RecyclingPool2` overlap, the later one can return while the pool of
  the earlier one is open with tasks under way (`OverlappingExitsExample`); a returned call has
  closed everything exactly when no earlier call is still holding a pool (`ExitWaitsForAll`,
  `ExitClosesItsPeriod`, `ExitsInOrderCloseAll`).
* `RecyclingPool` keeps its task count over exit and re-entry (`CountIffEntersAtZero`, with the run `ReentryExample`).
* The call cache is keyed by a hash alone and is transparent exactly when no two used arguments
  with different results collide (`TransparentIffCollisionFree`).
* `run_in_workers` with a negative queue length returns normally exactly when no future was
  yielded (`RunInWorkers`); its default number of workers is zero on two processors or fewer, which
  the executor refuses (`DefaultNumWorker`, `RunWithDefaults`).
* The OpenCC parser reads an entry whose key is `#` as a comment (`ParseRender`).
* Treemap ids collide or name the wrong parent when keys show as slashes, as nothing below the
  root, or like a sibling (`TreemapItems`, `ParentOfChild`, and for arbitrary keys
  `DistinctIdsIffParts`).
* `take(n)` pulls one element more than it yields; `chunk(n)` with n below one yields a single
  tuple of everything where `batched` raises (`TakePulls`, `ChunkWithoutSize`, `ChunkIsBatched`).
* The two functions called `uniq_by` keep opposite ends of each group. The docstring of the
  standalone one does not say which (`GroupHeadsAreChainUniqBy`, `GroupLastsAreUniqBy`).
* `_add_reservoir` draws an index below the reservoir's own length, so a full reservoir is
  overwritten on every further element (`NewestIsSampled`).

## Model

| member | source | states |
|---|---|---|
| `Forest.HalveKeeps` | src/ihate_work/util/nlp/cjk_variants/build_dict.py:52-54 | re-attaching an element to its grandparent changes no root and no component, and no depth above it |
| `Forest.HalvingStep` | src/ihate_work/util/nlp/cjk_variants/build_dict.py:52-54 | one turn of the find loop shortens the walk by two links (or by the last one) and keeps its root |
| `Forest.LinkRoots` | src/ihate_work/util/nlp/cjk_variants/build_dict.py:61-65 | linking two roots merges exactly their two components and leaves every other element's root alone |
| `Forest.LinkRankBounded` | src/ihate_work/util/nlp/cjk_variants/build_dict.py:61-65 | union by rank keeps 2^rank of every root at most the size of its component |
| `Forest.DepthLogarithmic` | src/ihate_work/util/nlp/cjk_variants/build_dict.py:52-65 | in every reachable forest 2^depth of an element is at most the size of its component |
| `Forest.Pow2Sum` | src/ihate_work/util/nlp/cjk_variants/build_dict.py:64-65 | the bound is a power of two: exponents add, and the first is two |
| `UnionFind.UnionFind.Find` | src/ihate_work/util/nlp/cjk_variants/build_dict.py:48-55 | registers an unseen element last, returns the root of x, changes no root, no rank, no other key and not the united pairs; takes at most half the path length rounded up, hence logarithmically many, steps |
| `UnionFind.UnionFind.Climb` | src/ihate_work/util/nlp/cjk_variants/build_dict.py:52-55 | the loop takes exactly half the depth, rounded up, turns, so 2^(2·turns - 1) is at most the component size |
| `UnionFind.UnionFind.Union` | src/ihate_work/util/nlp/cjk_variants/build_dict.py:57-65 | afterwards the forest explains exactly one more pair; nothing but the two elements is registered |
| `UnionFind.UnionFind.Join` | src/ihate_work/util/nlp/cjk_variants/build_dict.py:59-65 | the roots are those of the old forest with the two components merged under one of the two old roots, and the rank bound survives |
| `UnionFind.ExplainsConnectivity` | src/ihate_work/util/nlp/cjk_variants/build_dict.py:48-65 | two registered elements have the same root if and only if the reflexive-symmetric-transitive closure of the united pairs relates them |
| `UnionFind.ExplainsUnion` | src/ihate_work/util/nlp/cjk_variants/build_dict.py:57-65 | merging the roots of a and b turns a root table for some pairs into one for those pairs and (a, b) |
| `UnionFind.UnionFind.Clusters` | src/ihate_work/util/nlp/cjk_variants/build_dict.py:67-71 | returns the registered elements grouped by root, each once, without changing key set, order, ranks or roots, so the loop never iterates over a changing dictionary |
| `BuildDict.GroupsArePartition` | src/ihate_work/util/nlp/cjk_variants/build_dict.py:67-71 | the groups extracted from a union-find are precisely the connectivity classes of its pairs, pairwise disjoint and covering every mentioned character |
| `OrderedDict.GroupIsStablePartition` | src/ihate_work/util/nlp/cjk_variants/build_dict.py:68-71 | a defaultdict(list) grouping loop yields each key once, in first-occurrence order, with exactly its values in their original order |
| `OpenccParser.ParseOpenccTsv` | src/ihate_work/util/nlp/cjk_variants/build_dict.py:79-98 | the loop returns the pairs of the text's lines, and no pair relates a character to itself, has a key '#', or involves white space |
| `OpenccParser.KeyPairsAre` | src/ihate_work/util/nlp/cjk_variants/build_dict.py:89-97 | an entry contributes its key paired with each of its one-character values other than the key, and nothing else |
| `OpenccParser.KeyPairsConcat` | src/ihate_work/util/nlp/cjk_variants/build_dict.py:92-97 | the values of an entry contribute one by one and in order, each with one pair or none |
| `OpenccParser.IntendedAre` | src/ihate_work/util/nlp/cjk_variants/build_dict.py:90-97 | only a key of exactly one character makes pairs, with each value of one other character |
| `OpenccParser.ParseLine` | src/ihate_work/util/nlp/cjk_variants/build_dict.py:83-97 | a line with a tab, whatever white space frames it, pairs its key with the words of its second column alone, unless it starts with a number sign |
| `OpenccParser.ParseOtherLine` | src/ihate_work/util/nlp/cjk_variants/build_dict.py:83-88 | a blank line and a line without a tab contribute nothing |
| `OpenccParser.FilePairsConcat` | src/ihate_work/util/nlp/cjk_variants/build_dict.py:82-98 | the pairs of a file are those of its lines in order; no line affects another |
| `OpenccParser.AllFilePairsAre` | src/ihate_work/util/nlp/cjk_variants/build_dict.py:148-153 | a pair is parsed if and only if some file holds it |
| `OpenccParser.PairsOfEntry` | src/ihate_work/util/nlp/cjk_variants/build_dict.py:92-97 | the loop over an entry's values collects those pairs in order |
| `OpenccParser.FilePairsProper` | src/ihate_work/util/nlp/cjk_variants/build_dict.py:79-98 | whatever the text, a parsed pair relates two different non-space characters |
| `OpenccParser.ParseRender` | src/ihate_work/util/nlp/cjk_variants/build_dict.py:82-98 | parsing a rendered dictionary entry gives back exactly its intended pairs if and only if its key does not start with '#' or it intends no pair: an entry for '#' itself is silently taken for a comment |
| `OpenccParser.DictionaryRoundTrip` | src/ihate_work/util/nlp/cjk_variants/build_dict.py:79-98 | writing a dictionary file line by line and parsing its text gives back exactly the intended pairs if and only if no entry with pairs has a key starting with '#' |
| `Strings.LinesSplit` | src/ihate_work/util/nlp/cjk_variants/build_dict.py:82 | splitting a text into lines undoes ending every line with a line feed |
| `Strings.FirstLine` | src/ihate_work/util/nlp/cjk_variants/build_dict.py:82 | a text is its first line, that line's end (a carriage return with its line feed counting once) and the lines of the rest |
| `Strings.UnendedLine` | src/ihate_work/util/nlp/cjk_variants/build_dict.py:82 | what follows the last line end is a line too, unless it is empty |
| `Strings.StripIs` | src/ihate_work/util/nlp/cjk_variants/build_dict.py:83 | strip removes exactly the white space around a text that begins and ends visibly |
| `Strings.SplitJoin` | src/ihate_work/util/nlp/cjk_variants/build_dict.py:86 | split undoes join on separator-free parts |
| `Strings.JoinSplit` | src/ihate_work/util/prefix_counter.py:35 | join undoes split for every string |
| `Strings.WordsJoin` | src/ihate_work/util/nlp/cjk_variants/build_dict.py:92 | split() undoes joining visible words with single spaces |
| `Strings.WordsSplit` | src/ihate_work/util/nlp/cjk_variants/build_dict.py:92 | any white space character ends a word, and a run of visible characters is one word |
| `BuildDict.EntryDescribes` | src/ihate_work/util/nlp/cjk_variants/build_dict.py:173-174 | least code point first, the rest strictly ascending: the entry describes exactly its class |
| `BuildDict.AllPairsAre` | src/ihate_work/util/nlp/cjk_variants/build_dict.py:148-153 | a pair is united if and only if some file holds it |
| `BuildDict.AllPairsConcat` | src/ihate_work/util/nlp/cjk_variants/build_dict.py:148-153 | the pairs of the files follow one another in reading order, repetitions included |
| `BuildDict.SortedEntriesCanonical` | src/ihate_work/util/nlp/cjk_variants/build_dict.py:170-188 | dropping singletons, choosing representatives and sorting turns any partition into the canonical cluster list |
| `BuildDict.CanonicalUnique` | src/ihate_work/util/nlp/cjk_variants/build_dict.py:187-188 | two canonical lists of the same equivalence are the same list |
| `BuildDict.CanonicalClasses` | src/ihate_work/util/nlp/cjk_variants/build_dict.py:173-188 | each cluster is closed under connectivity, headed by its least code point, and disjoint from every other |
| `BuildDict.CoveredExactlyMentioned` | src/ihate_work/util/nlp/cjk_variants/build_dict.py:148-188 | when no pair relates a character to itself, the clusters cover exactly the characters that occur in some pair |
| `BuildDict.Build` | src/ihate_work/util/nlp/cjk_variants/build_dict.py:145-188 | for every list of pairs the emitted list is the canonical description of their connectivity |
| `BuildDict.BuildIsOrderFree` | src/ihate_work/util/nlp/cjk_variants/build_dict.py:187-188 | permuting, repeating or side-swapping the pairs gives the identical list |
| `OpenccParser.BuildFromText` | src/ihate_work/util/nlp/cjk_variants/build_dict.py:145-188 | from the text of any source files: a canonical list covering exactly the characters of the parsed pairs |
| `VariantMap.VariantMap.constructor` | src/ihate_work/util/nlp/cjk_variants/variant_map.py:18-53 | after loading, the three tables hold what the decoded non-blank lines say, later lines overriding; a missing file leaves them empty |
| `VariantMap.DecodedConcat` | src/ihate_work/util/nlp/cjk_variants/variant_map.py:34-40 | each line of the file speaks for itself, and only a blank one says nothing |
| `VariantMap.DecodedWritten` | src/ihate_work/util/nlp/cjk_variants/build_dict.py:203-206 | reading the written lines, stripped and decoded, gives back the cluster list |
| `VariantMap.VariantMap.ReadLine` | src/ihate_work/util/nlp/cjk_variants/variant_map.py:38-48 | one line points each member at the representative and gives representative and members one shared cluster |
| `VariantMap.LoadedMapIsLastLine` | src/ihate_work/util/nlp/cjk_variants/variant_map.py:43-46 | for every list of lines, canonical or not, a character maps to the representative of the last line that lists it as a member |
| `VariantMap.LoadedClustersIsLastMention` | src/ihate_work/util/nlp/cjk_variants/variant_map.py:41-46 | and its cluster is that of the last line mentioning it at all |
| `VariantMap.LoadedAnswers` | src/ihate_work/util/nlp/cjk_variants/variant_map.py:18-65 | a loaded canonical list answers connectivity: representative is the least connected code point, cluster the whole component |
| `VariantMap.RepresentativesAgree` | src/ihate_work/util/nlp/cjk_variants/variant_map.py:59-61 | two characters have the same representative if and only if they are connected |
| `VariantMap.NormalizeFaithful` | src/ihate_work/util/nlp/cjk_variants/variant_map.py:55-57 | normalize is idempotent and two texts normalise equally if and only if they have equal length and are connected position by position |
| `VariantMap.VariantMap.Normalize` | src/ihate_work/util/nlp/cjk_variants/variant_map.py:55-57 | normalize keeps the length of every text |
| `VariantMap.BuildAndLoad` | src/ihate_work/util/nlp/cjk_variants/variant_map.py:18-65 | building from any pairs, writing one line per cluster and loading the lines gives a normaliser that answers exactly the connectivity of those pairs |
| `RecyclingPool2.StepKeepsInv` | src/ihate_work/util/concurrency/recycling_pool2.py:82-142 | every locked block, join, shutdown, thread step and task completion keeps: one holder per pool, one shutdown per pool, unfinished threads tracked, generation i+1 for the i-th pool, the task count equal to the submissions made to the installed pool |
| `RecyclingPool2.RunKeepsInv` | src/ihate_work/util/concurrency/recycling_pool2.py:82-142 | so do all interleavings |
| `RecyclingPool2.UnshutPools` | src/ihate_work/util/concurrency/recycling_pool2.py:90-142 | in every interleaving the pools not yet shut are exactly the installed one, those of live retirement threads and those of an __exit__ in progress; every live thread is known to somebody who can join it |
| `RecyclingPool2.Generations` | src/ihate_work/util/concurrency/recycling_pool2.py:70-87 | generations are never reused, the installed pool carries the current one and is open, and _tasks counts the submissions made to it |
| `RecyclingPool2.ShutdownIsFinal` | src/ihate_work/util/concurrency/recycling_pool2.py:104-141 | a pool whose shutdown has begun takes no further task, is shut down once, and once shut has all its futures done for good |
| `RecyclingPool2.PoolsRecordTheirTasks` | src/ihate_work/util/concurrency/recycling_pool2.py:104-109 | in every run a pool has counted exactly the submissions made while it was installed, refused ones included, has one future for each accepted one, and a future is done exactly when that task has completed |
| `RecyclingPool2.PruningIsSafe` | src/ihate_work/util/concurrency/recycling_pool2.py:130-131 | pruning drops only threads whose pool is already shut with every task done |
| `RecyclingPool2.PruningIsExact` | src/ihate_work/util/concurrency/recycling_pool2.py:130-142 | after recycling, the threads kept are exactly the unfinished ones and the new one |
| `RecyclingPool2.StepKeepsPeriods` | src/ihate_work/util/concurrency/recycling_pool2.py:90-142 | every __exit__ call answers only for pools of its own period: older than its locked block, younger than every earlier one |
| `RecyclingPool2.ExitWaitsForAll` | src/ihate_work/util/concurrency/recycling_pool2.py:90-102 | in every run, when an __exit__ has returned, a pool older than its locked block is shut once with all futures done if and only if no earlier __exit__ call is still holding it |
| `RecyclingPool2.ExitClosesItsPeriod` | src/ihate_work/util/concurrency/recycling_pool2.py:90-102 | in every run a returned __exit__ has closed every pool created after the locked blocks of the earlier calls still under way |
| `RecyclingPool2.ExitsInOrderCloseAll` | src/ihate_work/util/concurrency/recycling_pool2.py:90-102 | when all earlier __exit__ calls have returned too, every pool created before the locked block is shut once with all futures done |
| `RecyclingPool2.OverlappingExitsExample` | src/ihate_work/util/concurrency/recycling_pool2.py:82-102 | a run without any recycling where the second of two overlapping __exit__ calls has returned while the first one's pool is open with a task unfinished |
| `RecyclingPool2.ExitIsNeverStuck` | src/ihate_work/util/concurrency/recycling_pool2.py:97-102 | an unfinished __exit__ can step, or waits for a thread that can, or for an unfinished task of a pool it answers for |
| `RecyclingPool2.ConfinedRunsRest` | src/ihate_work/util/concurrency/recycling_pool2.py:90-142 | recycling only within the entered period leaves nothing installed or retiring outside it once threads are joined |
| `RecyclingPool2.AllShutAfterExit` | src/ihate_work/util/concurrency/recycling_pool2.py:90-102 | with recycling confined to the entered period, once everyone has left, every pool ever created is shut down exactly once with every submitted future done |
| `RecyclingPool2.LateRecycleLeaks` | src/ihate_work/util/concurrency/recycling_pool2.py:118-129 | outside the entered period recycle_if_needed keeps the pool at rest if and only if the task count is below the threshold; otherwise it installs an open pool that no __exit__ call answers for |
| `RecyclingPool2.AtRestIffConfined` | src/ihate_work/util/concurrency/recycling_pool2.py:82-142 | a run leaves no pool installed and no thread tracked outside the entered period at any moment if and only if recycling past the threshold is confined to that period |
| `RecyclingPool2.LateRecycleExample` | src/ihate_work/util/concurrency/recycling_pool2.py:90-96 | such a run exists, because __exit__ does not clear _tasks |
| `RecyclingPool2.PoolTaskBound` | src/ihate_work/util/concurrency/recycling_pool2.py:104-129 | with k clients alternating recycle_if_needed and submit, no pool receives more than recycle_after + k - 1 tasks, in any interleaving |
| `RecyclingPool2.PoolTaskBoundIsTight` | src/ihate_work/util/concurrency/recycling_pool2.py:104-129 | some interleaving reaches that bound |
| `RecyclingPool2.RecyclingPool2.Enter` | src/ihate_work/util/concurrency/recycling_pool2.py:82-88 | is the Enter step of the protocol and keeps its invariant; raises when already entered |
| `RecyclingPool2.RecyclingPool2.ExitBlock` | src/ihate_work/util/concurrency/recycling_pool2.py:90-96 | the locked block of __exit__ is one step: it hands over the pool and the threads and forgets them |
| `RecyclingPool2.RecyclingPool2.Submit` | src/ihate_work/util/concurrency/recycling_pool2.py:104-109 | is the Submit step; a refused task still counts, outside the entered period it raises and changes nothing |
| `RecyclingPool2.RecyclingPool2.RecycleIfNeeded` | src/ihate_work/util/concurrency/recycling_pool2.py:111-142 | is the Recycle step: swap, reset, prune, start one retirement thread |
| `RecyclingPool.StepKeepsInv` | src/ihate_work/util/concurrency/recycling_pool.py:50-95 | every step keeps: only the installed pool is not shut, replaced pools have all tasks done, nobody replaces without the lock |
| `RecyclingPool.AtMostOneLivePool` | src/ihate_work/util/concurrency/recycling_pool.py:60-95 | at most one pool is un-shut at any moment of any interleaving, even when several clients pass the threshold check, and no future of a replaced pool is unfinished |
| `RecyclingPool.PoolsRecordTheirTasks` | src/ihate_work/util/concurrency/recycling_pool.py:66-71 | the same exact record of submissions, futures and completions for version 1 |
| `RecyclingPool.CountIffEntersAtZero` | src/ihate_work/util/concurrency/recycling_pool.py:50-95 | the count equals the installed pool's submissions in every state of a run if and only if every __enter__ that installs a pool finds the count at zero; neither __enter__ nor __exit__ resets it |
| `RecyclingPool.ReentryExample` | src/ihate_work/util/concurrency/recycling_pool.py:50-71 | a run that breaks it: one task, leave, enter again, and the new pool of no tasks starts with a count of one |
| `RecyclingPool.LockIsReleased` | src/ihate_work/util/concurrency/recycling_pool.py:60-63 | whoever holds the lock inside a shutdown can release it, or an unfinished task of the installed pool can complete |
| `RecyclingPool.PoolTaskBound` | src/ihate_work/util/concurrency/recycling_pool.py:66-95 | the same bound as version 2: recycle_after + k - 1 tasks per pool |
| `RecyclingPool.PoolTaskBoundIsTight` | src/ihate_work/util/concurrency/recycling_pool.py:66-95 | reached by some disciplined run, whatever the threshold |
| `RecyclingPool.RecyclingPool.BeginReplace` | src/ihate_work/util/concurrency/recycling_pool.py:89-90 | the second locked block up to its wait is one protocol step; it raises when __exit__ has removed the pool meanwhile |
| `RecyclingPool.RecyclingPool.EndReplace` | src/ihate_work/util/concurrency/recycling_pool.py:91-95 | the rest of the block, once all old tasks are done, installs a fresh pool and resets the count |
| `RecyclingPool.RecyclingPool.PastThreshold` | src/ihate_work/util/concurrency/recycling_pool.py:79-82 | decides by the threshold alone and releases the lock before draining |
| `CountdownWorker.ProcessWorkerCountdown` | src/ihate_work/util/concurrency/loky_executor.py:75-163 | for every sequence of deliveries, memory observations and limits the loop's messages, exit reason and task count are those of the conduct predicate; a failing initializer sends nothing |
| `CountdownWorker.ConductStep` | src/ihate_work/util/concurrency/loky_executor.py:92-163 | each delivery extends the conduct of a waiting worker: no memory-check continue skips the task count |
| `CountdownWorker.MessagesAreOrdered` | src/ihate_work/util/concurrency/loky_executor.py:104-163 | one result per dequeued item in dequeue order, then on sentinel, timeout, count or leak exit exactly one own-pid message and nothing after it; a failing queue ends in a traceback or nothing |
| `CountdownWorker.ReasonsToLeave` | src/ihate_work/util/concurrency/loky_executor.py:92-163 | the worker executes at most max(1, max_tasks) items and retires by count exactly on reaching max_tasks; it leaves for a leak exactly when, not on its first task, both readings after the delay are too high and the count is not reached; on sentinel, timeout or queue error exactly when the last delivery is one |
| `CountdownWorker.ItemsConcat` | src/ihate_work/util/concurrency/loky_executor.py:92-134 | the dequeued tasks of two stretches of deliveries follow one another |
| `LokyExecutor.Executor.AdjustProcessCount` | src/ihate_work/util/concurrency/loky_executor.py:259-291 | without retire_after_tasks it leaves the refill to loky; otherwise it fills the table to exactly _max_workers (never shrinks it), one new worker per missing entry, as the refill function says |
| `LokyExecutor.RefillKeeps` | src/ihate_work/util/concurrency/loky_executor.py:264-291 | refilling loses no task and no pending pid message |
| `LokyExecutor.StepKeepsInv` | src/ihate_work/util/concurrency/loky_executor.py:136-291 | submit, dequeue, finish and reap-and-refill keep: full table, tasks conserved, retired workers exactly at their limit |
| `LokyExecutor.RefillSystem` | src/ihate_work/util/concurrency/loky_executor.py:136-291 | in every run the live table has exactly _max_workers entries, submitted = queued + in hand + completed as multisets, and at most _max_workers + completed / retire_after_tasks workers were ever spawned |
| `LokyExecutor.QueueIsFifo` | src/ihate_work/util/concurrency/loky_executor.py:136-291 | in every run the queue is the end of the submissions: tasks leave it in the order they came |
| `LokyExecutor.StepsUseUpWork` | src/ihate_work/util/concurrency/loky_executor.py:136-291 | without new submissions every step uses up work: three units per queued task, two per task in hand, one per pid message |
| `LokyExecutor.RunsAreBounded` | src/ihate_work/util/concurrency/loky_executor.py:136-291 | so a run without submissions has at most as many steps as the work it starts with |
| `LokyExecutor.WorkersCountDown` | src/ihate_work/util/concurrency/loky_executor.py:92-142 | each worker of the system is a countdown worker: what it finished in any run is the conduct of the worker loop, waiting while it runs and ended by its count exactly once retired or reaped |
| `LokyExecutor.StoppedMeansDone` | src/ihate_work/util/concurrency/loky_executor.py:136-291 | and where it stops every submitted task has been executed exactly once |
| `Workers.WaitPending` | src/ihate_work/util/concurrency/workers.py:14-28 | it waits exactly while more than target futures are pending; on return at most target are, all others are done and, if asked, none of those failed; an unreachable negative target spins |
| `Workers.RunInWorkers` | src/ihate_work/util/concurrency/workers.py:31-56 | pending never exceeds the queue length plus one, twice the workers standing in for an absent or zero length; without barriers, futures up to that length are never waited for before the last yield; at each None every earlier future is done before the producer resumes; a normal return lists exactly the non-None futures in yield order, all done, none failed when exceptions are raised; with a negative queue length and at least one worker it returns normally if and only if no future was yielded, and it spins only if one was; fewer than one worker is refused |
| `Workers.YieldedConcat` | src/ihate_work/util/concurrency/workers.py:43-48 | the futures yielded in two stretches follow one another, barriers left out |
| `Workers.DefaultNumWorker` | src/ihate_work/util/concurrency/workers.py:11 | a third of the processors rounded down, hence zero exactly on two processors or fewer |
| `Workers.RunWithDefaults` | src/ihate_work/util/concurrency/workers.py:31-56 | with its defaults the call is refused exactly on two processors or fewer, never spins, keeps at most two thirds of the processors plus one pending, and returns all yielded futures, none failed |
| `CallCache.TransparentIffCollisionFree` | src/ihate_work/util/versatile.py:112-130 | every call in every interleaving of check, compute and fill returns the uncached result if and only if no two used arguments share a hash and differ in result |
| `CallCache.StepKeepsInv` | src/ihate_work/util/versatile.py:112-130 | without collisions every step keeps all results right and a filled entry never changes its value |
| `CallCache.FillsWriteOwnResult` | src/ihate_work/util/versatile.py:126-130 | only a fill writes to the store, and it writes that call's own result over whatever was there |
| `CallCache.CollisionGoesWrong` | src/ihate_work/util/versatile.py:120-124 | two colliding arguments give, called in a row, a wrong answer: the store is keyed by the hash alone |
| `CallCache.CacheStorage.CallWithCache` | src/ihate_work/util/versatile.py:112-130 | a hit returns the stored value and changes nothing; a miss evaluates once and stores the value unless the function raised |
| `CallCache.CallInSequence` | src/ihate_work/util/versatile.py:112-130 | a sequential run evaluates no argument again whose evaluation returned; when nothing collides it answers correctly, and evaluates an argument that raises once per call |
| `CallCache.GlobalCache.WithGlobalCache` | src/ihate_work/util/versatile.py:82-87 | a second cache policy is refused; otherwise one store per signature, created empty on first use and shared afterwards |
| `CallCache.GlobalCache.Call` | src/ihate_work/util/versatile.py:72-77 | an uncached callable is called directly; a cached one answers a hit from its signature's store without evaluating, and a miss by one evaluation that fills the store unless it raised; the answer is the uncached one unless the argument collides with one the store has seen; no other signature's store changes |
| `Trie.InsertRepresents` | src/ihate_work/util/prefix_counter.py:57-69 | adding a tuple to a tree that represents some tuples gives one that represents those and the new one |
| `Trie.FromTuplesRepresents` | src/ihate_work/util/prefix_counter.py:8-13 | from_tuples represents its input whatever the random draws |
| `Trie.NodeRepresents` | src/ihate_work/util/prefix_counter.py:57-69 | the node at a path exists exactly when some tuple runs through it (or it is the root), and represents exactly what is left of those tuples |
| `Trie.NodeMeaning` | src/ihate_work/util/prefix_counter.py:57-106 | the root counts all tuples, the node at p the tuples longer than p with prefix p; own_count is the tuples ending there and never negative; the children's counts sum to at most the node's; leaf_samples has min(10, endings) elements and is a sub-multiset of the last elements ending there; the children stand in the order in which their keys first occur |
| `Trie.MatchesIs` | src/ihate_work/util/prefix_counter.py:57-69 | a tuple runs through the node at a proper path exactly when it is that path with something after, and ends there when that is one element |
| `Trie.CountMatchingIs` | src/ihate_work/util/prefix_counter.py:57-58 | the specified count of a node is the number of tuples running through it |
| `Trie.CountEndingIs` | src/ihate_work/util/prefix_counter.py:81-86 | the specified own count is the number of tuples ending at the node |
| `Trie.LastsAre` | src/ihate_work/util/prefix_counter.py:61-64 | an element is among the last ones at p as often as p followed by it was added |
| `Trie.HeadsAre` | src/ihate_work/util/prefix_counter.py:66-68 | the specified keys of the children are the first elements of the tuples of at least two, each once |
| `Trie.HeadsGrow` | src/ihate_work/util/prefix_counter.py:66-68 | and no later tuple moves one of them |
| `Trie.OwnCountIs` | src/ihate_work/util/prefix_counter.py:81-86 | own_count is the number of tuples ending at the node |
| `Trie.OwnCountsSumUp` | src/ihate_work/util/prefix_counter.py:81-86 | own counts over the whole tree sum to the root's count |
| `Trie.TreeDepth` | src/ihate_work/util/prefix_counter.py:75-79 | depth is the greatest tuple length less one, floored at zero |
| `Trie.ReservoirStep` | src/ihate_work/util/prefix_counter.py:100-106 | a reservoir step keeps its size at min(capacity, offered) and its content a sub-multiset of what was offered |
| `Trie.NewestIsSampled` | src/ihate_work/util/prefix_counter.py:100-106 | the newest element always enters the reservoir, and a full reservoir changes at exactly the drawn index |
| `PrefixCounter.PrefixCounter.Add` | src/ihate_work/util/prefix_counter.py:57-69 | the mutated object tree is the inserted tree, its old and fresh objects stay a tree, nothing else is touched |
| `PrefixCounter.PrefixCounter.ChildrenCarryKeys` | src/ihate_work/util/prefix_counter.py:66-69 | every child hangs under the key it carries as its prefix |
| `PrefixCounter.PrefixCounter.OwnCount` | src/ihate_work/util/prefix_counter.py:81-86 | computes own_count of the object tree without changing it |
| `PrefixCounter.PrefixCounter.Depth` | src/ihate_work/util/prefix_counter.py:75-79 | computes the depth of the object tree without changing it |
| `PrefixCounter.FromTuples` | src/ihate_work/util/prefix_counter.py:8-13 | the object tree built by adding each tuple is the from_tuples tree for some random draws |
| `PrefixCounter.BuildTreemap` | src/ihate_work/util/prefix_counter.py:16-48 | the stack loop over the object tree emits exactly the items of the specified traversal, colours by node depth included |
| `Treemap.TreemapVisitsTree` | src/ihate_work/util/prefix_counter.py:26-41 | the stack loop terminates having emitted every node of the tree exactly once, under its own path |
| `Treemap.VisitIsPreorder` | src/ihate_work/util/prefix_counter.py:26-41 | the stack loop visits a node before its children, and of these the last inserted first |
| `Treemap.KidEntriesInOrder` | src/ihate_work/util/prefix_counter.py:39-41 | the children are pushed in the order of their insertion |
| `Treemap.TreemapOfTuples` | src/ihate_work/util/prefix_counter.py:26-41 | the treemap of tuples has the root and one item for every proper prefix of a tuple, each valued with its count, at least the sum of its children's |
| `Treemap.TreemapItems` | src/ihate_work/util/prefix_counter.py:16-48 | the treemap of tuples has pairwise distinct ids and, for every node, its count, its colour by the longest tuple through it, its last key as label and the id of its tree parent, if and only if the keys (the elements of the tuples but their last ones) show no slash, no first one shows as nothing, and different ones after the same beginning show differently |
| `Treemap.ParentOfChild` | src/ihate_work/util/prefix_counter.py:35-40 | the parent field of a child's id is its parent's id if and only if the child's shown key holds no slash, or is a single leading one under the root |
| `Treemap.IdsSplitBack` | src/ihate_work/util/prefix_counter.py:33-40 | with slash-free keys and no root child shown as nothing, splitting an id gives back the shown path, the parent field names the tree parent and the label is the last key |
| `Treemap.DistinctIdsIff` | src/ihate_work/util/prefix_counter.py:40 | with slash-free keys ids are pairwise distinct if and only if siblings show differently and no root child shows as nothing |
| `Treemap.SameIdIff` | src/ihate_work/util/prefix_counter.py:40 | whatever the keys show as, two nodes get the same id if and only if the slash-separated parts of their shown keys, after leading empty ones, are the same |
| `Treemap.DistinctIdsIffParts` | src/ihate_work/util/prefix_counter.py:40 | the nodes of any tree have distinct ids if and only if no two of its paths have the same parts |
| `IteratorChain.Source.Next` | src/ihate_work/util/iter.py:35-124 | yields the first remaining element, pulling from the upstream exactly the stage's demand and nothing when something is already waiting |
| `IteratorChain.Source.Push` | src/ihate_work/util/iter.py:38-122 | one turn of each generator's for loop updates its counter, buffer or seen set as its step function says |
| `IteratorChain.Source.Drain` | src/ihate_work/util/iter.py:133-134 | list(iterator) is everything that remains, and leaves unread upstream exactly what the stage never pulls |
| `IteratorChain.IteratorChain.Replace` | src/ihate_work/util/iter.py:143-146 | every stage method gives up its handle, refuses a handle already given up, and its result yields the eager function of what was left |
| `IteratorChain.IteratorChain.Next` | src/ihate_work/util/iter.py:136-138 | refuses on a moved chain, else the next remaining element or StopIteration |
| `IteratorChain.Pipeline` | src/ihate_work/util/iter.py:35-134 | any composition of lazy stages, drained, is the composition of the eager list functions |
| `IteratorChain.ComposedConcat` | src/ihate_work/util/iter.py:143-146 | stages apply from the first to the last |
| `IteratorChain.TakeFrom` | src/ihate_work/util/iter.py:35-44 | after any stages take(n) yields the first n and consumes exactly min(length, n + 1) of what they yield; a negative n takes everything |
| `IteratorChain.IteratorChain.GroupIntoDict` | src/ihate_work/util/iter.py:126-131 | the loop over the chain builds the stable grouping of everything that remained |
| `Stages.LazyIsEager` | src/ihate_work/util/iter.py:35-124 | each lazy stage yields what its eager list function returns, on every input and for every n |
| `Stages.TakeAndSkip` | src/ihate_work/util/iter.py:35-68 | for n >= 0 take(n) and skip(n) cut the input in two after min(n, length) elements; a negative n takes everything and skips nothing |
| `Stages.ChunkWithoutSize` | src/ihate_work/util/iter.py:70-84 | with n below one chunk yields a single tuple of everything, or nothing on an empty input |
| `Stages.PointwiseMeaning` | src/ihate_work/util/iter.py:98-124 | map, flatmap and filter treat two stretches of input one after the other |
| `Stages.PointwiseOne` | src/ihate_work/util/iter.py:98-124 | on one element they yield f of it, all of its expansion, and the element if the predicate holds |
| `Stages.TakePulls` | src/ihate_work/util/iter.py:37-42 | take(n) pulls exactly min(length, n + 1) elements from its upstream, one per element it yields |
| `Stages.OthersPullAll` | src/ihate_work/util/iter.py:46-124 | every other stage pulls its whole upstream when drained |
| `Stages.DemandIsLeast` | src/ihate_work/util/iter.py:35-124 | stages are lazy: no shorter pull would have let the stage yield |
| `Stages.ChunksCut` | src/ihate_work/util/iter.py:15-23 | chunks concatenate to the input, are non-empty, all but the last have size n, and there are length / n of them rounded up |
| `Stages.Batched` | src/ihate_work/util/iter.py:15-23 | yields those chunks; a size below one raises, and strict raises exactly when n does not divide the length, after all full batches |
| `Stages.ChunkIsBatched` | src/ihate_work/util/iter.py:70-84 | chunk(n) equals batched(n) exactly for the n that batched accepts |
| `Grouping.GroupsPartition` | src/ihate_work/util/iter.py:126-131 | a group holds exactly the values with its key in order; keys come in first-occurrence order |
| `Grouping.GroupHeadsAreChainUniqBy` | src/ihate_work/util/iter.py:46-57 | the heads of the groups are what IteratorChain.uniq_by keeps |
| `Grouping.GroupLastsAreUniqBy` | src/ihate_work/util/uniq_by.py:12-13 | the standalone uniq_by returns the last value of each group, in first-occurrence order of the keys |
| `Grouping.GroupLengthsAreCounts` | src/ihate_work/util/iter.py:152-156 | the group sizes are the counts of the mapped keys, key for key in the same order |
| `Grouping.Count` | src/ihate_work/util/iter.py:152-156 | the counting loop computes the specified counts |
| `Grouping.CountedIsMultiplicity` | src/ihate_work/util/iter.py:152-156 | count gives every value its number of occurrences and nothing else |

## Left out

- Downloads, reading and writing files, the inside of the JSON library, logging, counters that only feed log lines, the oversize warning and the Sudachi
  cross-reference.
- OpenccParser.ParseOpenccTsv: starts from the decoded text of a file.
- VariantMap.VariantMap.constructor: `decode`, the JSON library's reading of a line, is a total
  parameter; a line it cannot read and a missing field, which raise, are not modelled.
- VariantMap.BuildAndLoad: assumes that `encode` and `decode` are a codec (one object's text is
  neither empty nor framed by white space, and reads back as that object), and takes the file as
  its lines.
- Executor internals, operating-system processes, pickling, process start-up and pid logging.
  `shutdown(wait=True)` means that it returns once all futures of that pool are done.
- A pool constructor or `Thread.start` that raises in the middle of a locked block.
- RecyclingPool2.PoolTaskBound: for recycle_after below one the bound is k, as for one.
- Nested recycling from inside `drain_fn`; `drain_fn` returns, raises or never returns, and its
  effect on futures is whatever other steps happen meanwhile.
- loky's manager thread beyond "reap a worker on its pid message, then refill"; prefork warm-up.
- LokyExecutor.Executor.AdjustProcessCount: what loky's own refill does when `retire_after_tasks`
  is unset is not part of this model, nor are a worker process's arguments other than its task
  limit.
- Memory measurement: what a check would see is part of the delivery. The branch without psutil
  only collects garbage and has no step of its own.
- LokyExecutor.RefillSystem: only task-count retirement is active; pids in the table are never
  drawn again while in use.
- Workers.WaitPending: termination rests on `cf.wait` timing out empty-handed finitely often;
  which futures it reports is arbitrary.
- CallCache.TransparentIffCollisionFree: a call's argument stands for the function together with
  its arguments where several functions share a signature; functions are deterministic.
- Streamlit session caches, `in_worker` and source-based signatures: the signature is given.
- IteratorChain.Pipeline: over a finite list, with total callables that have no side effects;
  the iterator returned by a flatmap callable is taken as a list, and values are hashable.
- Two handles of one chain advanced in turn: `to_list` and `group_into_dict` ignore `_moved`, and
  who then sees which element is not stated.
- PrefixCounter.BuildTreemap: returns the items; the plotly object made of them is left out.
- Treemap.DistinctIdsIff: for slash-free keys; `DistinctIdsIffParts` covers all keys.
- Reservoir uniformity, `pprint` and `__str__`.
- PrefixCounter.PrefixCounter.Add: the random draw is arbitrary; keys are compared by equality,
  as hashable Python keys are.
- Storage, LLM and telemetry wrappers, HTML cleaning, memory dumps and meta helpers: their meaning
  is in other systems.
