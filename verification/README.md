# Verified models of five components

This project models, in Dafny 4.11, the parts of the repository whose correctness rests on an argument
that spans several functions, and proves those arguments.

- **Seam carving** (`Builtins`, `Grids`, `SeamTable`, `SeamTrace`, `SeamTies`, `SeamRemoval`, `SeamRuns`). The
  cumulative energy map, both tracebacks, both seam removals and the three resizing experiments, on
  two-dimensional arrays. The value of a horizontal operation is the transpose of the vertical one on
  the transposed image; the horizontal loops are separate code and are proved against that.
- **K-means** (`Vectors`, `KMeans`, `KMeansLoop`, `KMeansExact`, `KMeansRetry`). Lloyd's iteration in exact real
  arithmetic, for any data, number of clusters and starting means, with its retries. The square root is a
  parameter that is only known to be one; no error precedes the first iteration.
- **User-level threads** (`Queue`, `ThreadModel`, `ThreadRuns`, `ThreadOrder`, `ThreadFailures`, `UThread`). The queue is a linked
  structure refined to a sequence. The library holds five such queues and refines a state machine on
  thread identifiers, about which the run properties are proved. A join is two steps, before and after
  the context switch; the target it is waiting for is ghost state, as it is a local variable of the
  suspended call. Where the program would go on with a pointer that it has not set, the model answers that
  it cannot go on.
- **File system** (`Layout`, `Fat`, `Volume`, `VolumeEffects`, `VolumeRuns`, `VolumeFailures`, `FileSystem`,
  `DiskFormat`, `Remount`). Chains in the allocation table, creation, deletion, the size arithmetic and allocation of a write, and the
  on-disk encoding. `Volume` is the value that `FileSystem` updates in place. What a read outside the disk
  leaves in its buffer is a parameter.
- **Voting game** (`VotingModel`, `VotingRuns`, `VotingUnanimity`, `VotingReach`, `VotingBound`, `VotingFairness`,
  `VotingUpsets`, `VotingServer`). One vote with its chain of callbacks is one step. Random choices and the order that sorting gives to ties are
  nondeterministic.

Indices start at 0 where the MATLAB code starts at 1.

## Where the code and its descriptions disagree

The model follows the code. Where the code misses what it or its documentation promises, the model has an
input that shows it and the exact condition under which the promise is kept.

- Joining a live thread works if and only if the joins of the target do not lead back to the caller; if they
  do, the caller waits for itself (`ThreadModel.JoinExactly`, `ThreadModel.CyclicJoin`,
  `ThreadFailures.CycleReached`). Joining a thread that has exited works exactly when main is the caller and
  the target never waited in a join of its own, because entries of `blocked` are never removed
  (`ThreadRuns.JoinExitedExactly`, `ThreadFailures.ExitedTargetFails`).
- Main must not yield while a thread is ready: with nothing in `running` there is no entry to take out, and
  main taken out of `running` never runs again (`ThreadRuns.YieldExactly`, `ThreadFailures.MainCannotYield`,
  `ThreadFailures.MainIsLost`). It must not exit either (`ThreadModel.ExitExactly`).
- Identifiers are 16 bits wide. When they run out, creating a thread starts over with new queues and a new
  main, and every other thread is forgotten (`ThreadModel.CreateExactly`, `UThread.Library.Create`).
- `queue_delete` answers 1 for a deletion, and `queue_iterate` answers -1 when no callback stops it;
  `queue.h` documents 0 for both (`Queue.Queue.Delete`, `Queue.Queue.Iterate`).
- `fs_create` succeeds without a free block, and the volume is then never well-formed
  (`Volume.CreateExactly`, `VolumeFailures.CreationWithoutBlock`). It does not refuse duplicate names, so
  deleting a file just created restores the table exactly when no earlier entry has its name
  (`Volume.CreateThenDelete`, `VolumeFailures.DuplicateName`).
- A name of 16 characters fills its buffer, so comparing it reads on into the size. A file is found by its own
  name if and only if the name is shorter or the lowest byte of the size is 0 (`Volume.FoundExactly`,
  `VolumeFailures.NameIsLost`).
- `fs_delete` does not end on a file of more than one block (`Volume.DeleteLoopHangs`,
  `Volume.DeleteEndsExactly`, `VolumeFailures.DeletionHangs`). It accepts the empty name and then frees the
  block that the old start of an empty entry names. A deletion that ends keeps the volume well-formed if and
  only if it was given a name (`Volume.DeleteExactly`); that of the empty name takes the last block away from
  a file, or block 0 from the volume, unless the old start is no data block (`Volume.EmptyNameTakesBlock`,
  `Volume.EmptyNameExactly`, `VolumeFailures.EmptyNameDamages`).
- A write that grows a file records the right size exactly when it starts at the end
  (`Volume.RecordedSizeExactly`). It leaves blocks for the size it records exactly when the chain and the
  new blocks make up as many (`Volume.WriteCoversExactly`); a write over the start of a file of one block
  does not (`VolumeFailures.OverlapLosesBlocks`). The room in the last block is not used by the next write, so a
  file keeps no block too many exactly when it was empty or that room would not have been enough
  (`VolumeEffects.AppendStaysTightExactly`, `VolumeFailures.SecondByteWastes`).
- Mounting counts the files from whatever its memory held, so what every run keeps holds after a remount, or
  on a formatted volume, exactly when that was 0 (`Remount.RemountExactly`, `Remount.RemountsExactly`,
  `VolumeRuns.FormattedExactly`).
- After an empty cluster is retried, `rms` is still the error of the first run: it is the error of the means
  returned exactly when there was no retry or both errors happen to be equal
  (`KMeansLoop.ErrorIsStaleExactly`, `KMeansRetry.StaleRun`).
- A round change eliminates the restaurants with the fewest negative votes, among all restaurants and not
  among the candidates. Exactly which candidates can stay, can go, or are sure to stay is stated in
  `VotingFairness.SurvivesExactly`, `EliminatedExactly`, `SparesAllExactly` and `LeavesNoneExactly`. A
  restaurant that more players rejected can win over one that fewer did (`VotingUpsets.MoreDislikedWins`),
  and one that everybody rejected over one that somebody wants (`VotingUpsets.RejectedByAllWins`).
- The votes are cleared before the final choice, which is sure to be a least disliked candidate exactly when
  all candidates were tied and the last round change was sure to leave one
  (`VotingFairness.FinalChoiceExactly`).

## Model

| member | source | states |
|---|---|---|
| SeamTable.RowIsLowerBound | Context-Sensitive Image Resizing/cumulative_min_energy_map.m:25-42 | No connected path from the first row is cheaper than the table cell where it ends |
| SeamTable.RowIsAttained | Context-Sensitive Image Resizing/cumulative_min_energy_map.m:25-42 | Some connected path from the first row costs exactly what the table cell says |
| SeamTable.TableIsLeastCost | Context-Sensitive Image Resizing/cumulative_min_energy_map.m:25-42 | Every cell of the map is the minimum total energy over all connected paths to it |
| SeamTable.VerticalMap | Context-Sensitive Image Resizing/cumulative_min_energy_map.m:25-42 | The vertical loops fill the array with that table, whenever the neighbour lookups stay inside the image |
| SeamTable.HorizontalMap | Context-Sensitive Image Resizing/cumulative_min_energy_map.m:5-22 | The horizontal loops fill the array with the transpose of the table of the transposed energies |
| SeamTable.CumulativeMinEnergyMap | Context-Sensitive Image Resizing/cumulative_min_energy_map.m:1-48 | Either direction by name; any other direction leaves the zeros |
| Builtins.FirstMin | Context-Sensitive Image Resizing/find_vertical_seam.m:10-10 | The index output of the minimum is the first of the least elements |
| SeamTrace.StepFollowsRelax | Context-Sensitive Image Resizing/find_vertical_seam.m:13-39 | Each step of the traceback reaches the cell from which the table cell below it was computed, in all three border cases |
| SeamTrace.TraceIsPath | Context-Sensitive Image Resizing/find_vertical_seam.m:6-41 | The seam has one pixel per row, inside the image, and moves at most one column between rows |
| SeamTrace.TraceCost | Context-Sensitive Image Resizing/find_vertical_seam.m:6-41 | Down to any row, the traced path costs what the table holds where it arrives |
| SeamTrace.SeamIsOptimal | Context-Sensitive Image Resizing/find_vertical_seam.m:6-41 | The traced seam costs no more than any other connected seam |
| SeamTrace.FindVerticalSeam | Context-Sensitive Image Resizing/find_vertical_seam.m:1-42 | The descending loop computes that traceback, ties included |
| SeamTrace.FindHorizontalSeam | Context-Sensitive Image Resizing/find_horizontal_seam.m:1-42 | The loop over columns computes the traceback of the transposed map, ties included |
| SeamTies.SeamIsLeftmost | Context-Sensitive Image Resizing/find_vertical_seam.m:6-41 | Where an optimal seam that has joined the traced one below parts from it, it goes to its right: ties are broken to the left, from the bottom up |
| SeamTies.LeftmostIsUnique | Context-Sensitive Image Resizing/find_vertical_seam.m:6-41 | The traced seam is the only optimal seam of which this is true |
| SeamRemoval.TotalRemoveSeam | Context-Sensitive Image Resizing/decrease_width.m:13-23 | Removing a seam lowers the total energy by exactly the cost of the seam |
| SeamRemoval.ReductionRemovesMinimumSeam | Context-Sensitive Image Resizing/decrease_height.m:4-23 | A reduction along either axis removes a connected seam of minimum cost across that axis, and the total energy falls by that minimum |
| SeamRemoval.HorizontalCostIsTransposed | Context-Sensitive Image Resizing/decrease_height.m:4-23 | The cost of a horizontal seam is the cost of the same seam in the transposed energies |
| SeamRemoval.DecreaseWidth | Context-Sensitive Image Resizing/decrease_width.m:1-27 | Colour and energy images both lose exactly the cells of the optimal vertical seam |
| SeamRemoval.DecreaseHeight | Context-Sensitive Image Resizing/decrease_height.m:1-27 | Colour and energy images both lose exactly the cells of the optimal horizontal seam |
| SeamRuns.EnergyConservation | Context-Sensitive Image Resizing/ps1_q6.m:11-46 | After any interleaving of reductions the remaining energy is the original less the sum of the minimum seam costs removed |
| SeamRuns.Provenance | Context-Sensitive Image Resizing/ps1_q6.m:11-46 | Every cell of the result holds what one original cell held, in colour and in energy alike |
| SeamRuns.OriginIsInjective | Context-Sensitive Image Resizing/ps1_q6.m:11-46 | No two cells of the result come from the same original cell |
| SeamRuns.WidthRunKeepsOrder | Context-Sensitive Image Resizing/ps1_q6.m:11-18 | A run in width keeps cells in their rows and keeps the order of each row |
| SeamRuns.HeightRunKeepsOrder | Context-Sensitive Image Resizing/ps1_q6.m:39-46 | A run in height keeps cells in their columns and keeps the order of each column |
| SeamRuns.LargeEnough | Context-Sensitive Image Resizing/ps1_q6.m:11-46 | A plan that leaves one row and one column can be carried out from start to end |
| SeamRuns.ResizeTestOne | Context-Sensitive Image Resizing/ps1_q6.m:11-22 | 20 width reductions, then 40 height reductions |
| SeamRuns.ResizeTestTwo | Context-Sensitive Image Resizing/ps1_q6.m:27-35 | One width reduction, then 59 times a width and a height reduction |
| SeamRuns.ResizeTestThree | Context-Sensitive Image Resizing/ps1_q6.m:39-46 | 100 height reductions |
| Vectors.ExpandedSqDist | SIFT Image Classification/distSqr.m:33-38 | The expanded formula equals the sum of squared differences |
| Vectors.DistSqr | SIFT Image Classification/distSqr.m:22-38 | The loop turns all inner products into squared distances, and fails exactly when the dimensions differ |
| KMeans.AssignIsBest | SIFT Image Classification/kmeansML.m:109-113 | Nearest-mean assignment costs no more than any other assignment |
| KMeans.CentroidIsBest | SIFT Image Classification/kmeansML.m:119-123 | A cluster costs, at any point, its cost at the centroid plus its size times the squared distance to the centroid |
| KMeans.UpdateLowersCost | SIFT Image Classification/kmeansML.m:115-123 | Recomputing the means lowers the cost by exactly the weighted squared distances moved; empty clusters contribute nothing |
| KMeans.ErrorFallsByDrift | SIFT Image Classification/kmeansML.m:75-92 | One iteration lowers the error at least by that amount |
| KMeans.ErrorFallsUnlessFixed | SIFT Image Classification/kmeansML.m:75-92 | The error stays the same only if every non-empty cluster already has its centroid as its mean |
| KMeans.ErrorNeverRises | SIFT Image Classification/kmeansML.m:75-92 | Over any number of iterations from any starting means, the error never rises |
| KMeansLoop.RmsNeverRises | SIFT Image Classification/kmeansML.m:79-85 | The root mean square error never rises either |
| KMeansLoop.ComputeMembership | SIFT Image Classification/kmeansML.m:109-113 | Each point gets its first nearest mean; the error is the root of the mean squared distance |
| KMeansLoop.ComputeMeans | SIFT Image Classification/kmeansML.m:115-123 | Means are the centroids, zero for an empty cluster, and counts are the cluster sizes |
| KMeansLoop.HasConverged | SIFT Image Classification/kmeansML.m:86-89 | The convergence test; it never holds in the first round, and with zero tolerance it holds only when no mean has moved |
| KMeansLoop.KmeansRound | SIFT Image Classification/kmeansML.m:75-92 | One round advances the means by one iteration, and the error statement in it cannot be reached |
| KMeansLoop.KmeansIterate | SIFT Image Classification/kmeansML.m:71-93 | The loop ends after the first round in which the test holds, or the last one allowed, with the membership and error of the means it has then; an early stop with zero movement tolerance is a fixed point |
| KMeansLoop.KmeansInternal | SIFT Image Classification/kmeansML.m:51-107 | Membership and means are those of the first run that is not retried, and the error is that of the very first run |
| KMeansExact.StopsExactly | SIFT Image Classification/kmeansML.m:86-89 | The test holds if and only if an error has gone before, twice its fall is at most the tolerance times the sum of both errors and eps, and no mean has moved further than its tolerance |
| KMeansExact.RoundsExactly | SIFT Image Classification/kmeansML.m:75-92 | The loop ends after the first round in which the test holds, or after the last one allowed |
| KMeansExact.NearestIsFirst | SIFT Image Classification/kmeansML.m:109-113 | A point goes to the first of its nearest means |
| KMeansExact.EmptyClusterMean | SIFT Image Classification/kmeansML.m:115-123 | A cluster without points has its mean at the origin |
| KMeansExact.SomeRunReturned | SIFT Image Classification/kmeansML.m:95-107 | The means are those of the first run, of at most four, whose last assignment uses every cluster, or of the fourth |
| KMeansLoop.ErrorIsStaleExactly | SIFT Image Classification/kmeansML.m:96-107 | The error returned is that of the means returned if and only if the first run was not retried or the two errors coincide |
| KMeansRetry.StaleError | SIFT Image Classification/kmeansML.m:99-103 | On a concrete input the first run is retried, and the means returned have a smaller error than the first run |
| KMeansRetry.StaleRun | SIFT Image Classification/kmeansML.m:99-103 | On that input the answer holds an error that is not the error of its means |
| Queue.Queue.Enqueue | Thread Library/libuthread/queue.c:41-64 | Appends the item; a null item is refused with -1 |
| Queue.Queue.Dequeue | Thread Library/libuthread/queue.c:67-87 | Takes the first item, or answers -1 on an empty queue |
| Queue.Queue.Delete | Thread Library/libuthread/queue.c:90-129 | Removes exactly the first occurrence and keeps the order of the rest; changes nothing when absent |
| Queue.Queue.Unlink | Thread Library/libuthread/queue.c:100-121 | Takes one node out in each of the four positions and keeps head, tail, next, prev and length consistent |
| Queue.Queue.Iterate | Thread Library/libuthread/queue.c:141-167 | Answers the first item on which the callback stops |
| Queue.Queue.Length | Thread Library/libuthread/queue.c:170-178 | The number of items |
| ThreadModel.CreateExactly | Thread Library/libuthread/uthread.c:131-157 | Creating a thread keeps the invariant, and adds to the live threads without losing any if and only if the identifiers have not run out |
| ThreadModel.YieldInv | Thread Library/libuthread/uthread.c:212-243 | A yield by another thread than main keeps the invariant |
| ThreadModel.ChainEnds | Thread Library/libuthread/uthread.c:250-296 | The joins that start at a live thread lead to a thread that can run, which is that thread or one that somebody waits for |
| ThreadModel.JoinFindsReady | Thread Library/libuthread/uthread.c:285-296 | When a join must switch and the joins of its target do not lead back to the caller, the ready queue is not empty |
| ThreadModel.LiveIsNotDone | Thread Library/libuthread/uthread.c:77-96 | A live target is never taken for a finished one |
| ThreadModel.JoinBeginInv | Thread Library/libuthread/uthread.c:250-296 | Joining a live thread that nobody joins, and whose joins do not lead back to the caller, keeps the invariant and the fates of all threads |
| ThreadModel.CyclicJoin | Thread Library/libuthread/uthread.c:250-296 | When they do lead back, nothing is ready to run or the caller waits in a cycle in which no thread can ever run |
| ThreadModel.JoinExactly | Thread Library/libuthread/uthread.c:250-296 | Joining a live thread that nobody joins keeps the invariant if and only if the joins of the target do not lead back to the caller |
| ThreadModel.JoinExitedInv | Thread Library/libuthread/uthread.c:250-296 | Main may join an exited thread that never waited |
| ThreadModel.JoinEndInv | Thread Library/libuthread/uthread.c:298-310 | When the caller runs again its target is a zombie, and only that record leaves the zombies |
| ThreadModel.ParentIsJoiner | Thread Library/libuthread/uthread.c:67-74 | The search in blocked finds the thread that waits, despite stale entries |
| ThreadModel.ExitFindsReady | Thread Library/libuthread/uthread.c:185-208 | After an exit the ready queue is not empty |
| ThreadModel.ExitInv | Thread Library/libuthread/uthread.c:166-208 | Exit wakes the parent, stores the value, and keeps the invariant |
| ThreadModel.ExitExactly | Thread Library/libuthread/uthread.c:185-208 | An exit keeps the invariant if and only if it is not main that exits |
| ThreadRuns.AfterInv | Thread Library/libuthread/uthread.c:100-310 | Every state that enabled calls lead to satisfies the invariant |
| ThreadRuns.NoDeadlock | Thread Library/libuthread/uthread.c:166-296 | In every reachable state no thread is twice in running and ready, and whoever must switch finds a ready thread |
| ThreadFailures.CycleReached | Thread Library/libuthread/uthread.c:250-296 | A legal run of three creations and two joins after which the running thread can join a live thread whose joins lead back to it |
| ThreadRuns.ExitExtendsLog | Thread Library/libuthread/uthread.c:185-203 | No thread exits twice, and the value passed is the value stored |
| ThreadRuns.JoinDelivers | Thread Library/libuthread/uthread.c:298-305 | A completing join returns the value its target passed to exit and removes exactly that record |
| ThreadRuns.ExitIsFinal | Thread Library/libuthread/uthread.c:185-208 | A thread that can exit has not exited before |
| ThreadRuns.JoinExitedExactly | Thread Library/libuthread/uthread.c:199-296 | Joining an exited thread keeps the invariant if and only if main calls and the target is not in blocked |
| ThreadRuns.CallerIsLost | Thread Library/libuthread/uthread.c:269-296 | Otherwise the caller waits for a thread that will not exit again |
| ThreadRuns.YieldExactly | Thread Library/libuthread/uthread.c:212-243 | A yield keeps the invariant if and only if no thread is ready or main is not the caller; main has nothing to dequeue when running is empty, and is lost otherwise |
| ThreadFailures.ExitedTargetFails | Thread Library/libuthread/uthread.c:250-296 | A legal run of two creations, a join and an exit after which joining the exited thread breaks the invariant |
| ThreadFailures.MainCannotYield | Thread Library/libuthread/uthread.c:222-226 | After one creation a yield by main has nothing to take out of running |
| ThreadFailures.MainIsLost | Thread Library/libuthread/uthread.c:222-240 | A legal run, with a join that is completed, after which main is in running; a yield then makes it a thread that is not live |
| ThreadRuns.YieldsRotate | Thread Library/libuthread/uthread.c:212-243 | k yields rotate the running thread and the ready queue by k |
| ThreadRuns.RoundRobin | Thread Library/libuthread/uthread.c:212-243 | The thread at ready position i runs after exactly i + 1 yields, and a full cycle restores the state |
| ThreadOrder.ExitOrder | Thread Library/libuthread/uthread.c:166-208 | An exit puts the thread that waited for it behind all ready threads and runs the first of that line; nothing else changes but the value stored and the zombies |
| ThreadOrder.JoinOrder | Thread Library/libuthread/uthread.c:250-296 | A join of a live thread runs the first ready one and leaves the order of the others; the caller is blocked |
| ThreadOrder.JoinExitedOrder | Thread Library/libuthread/uthread.c:250-296 | A join of an exited thread by main switches to no other thread |
| ThreadOrder.CreateOrder | Thread Library/libuthread/uthread.c:131-157 | A new thread is behind all ready threads; when the identifiers have run out it is alone with a new main |
| ThreadOrder.YieldOrder | Thread Library/libuthread/uthread.c:212-243 | A yield puts the caller behind all ready threads, or into the main queue, and runs the first of them |
| ThreadOrder.StepOrder | Thread Library/libuthread/uthread.c:100-310 | Every operation appends to the ready threads, and a switch takes the first one |
| ThreadOrder.ServedInOrder | Thread Library/libuthread/uthread.c:100-310 | Over every run the threads get the processor in exactly the order in which they became ready |
| ThreadOrder.ReadyThreadRuns | Thread Library/libuthread/uthread.c:100-310 | The thread at ready position i runs after exactly i + 1 switches, whatever calls are made in between |
| UThread.Library.constructor | Thread Library/libuthread/uthread.c:18-36 | The queues are empty and separate before the first call |
| UThread.Library.CreateMain | Thread Library/libuthread/uthread.c:100-128 | Five new queues, and main with identifier 0 in the main queue |
| UThread.Library.Create | Thread Library/libuthread/uthread.c:131-157 | A thread gets the next 16-bit identifier and becomes ready; whenever the counter is 0 the library starts over with main before it |
| UThread.Library.Self | Thread Library/libuthread/uthread.c:40-54 | The identifier of the executing thread, with the queue restored |
| UThread.Library.CheckThreadDone | Thread Library/libuthread/uthread.c:77-96 | True exactly when the thread is neither ready nor blocked; both queues are restored |
| UThread.Library.Yield | Thread Library/libuthread/uthread.c:212-243 | The queues change as the state machine says; with nothing in running the dequeue fails after a ready thread has been taken out |
| UThread.Library.BlockCaller | Thread Library/libuthread/uthread.c:269-280 | The caller leaves running, or goes to the back of the main queue, and is blocked on the target |
| UThread.Library.JoinBegin | Thread Library/libuthread/uthread.c:250-296 | A join up to the switch changes the queues as the state machine says; main cannot be joined, and with nothing ready the caller is left blocked |
| UThread.Library.JoinEnd | Thread Library/libuthread/uthread.c:298-310 | The rest of a join hands over the value and changes the queues as the state machine says; without a record in zombies there is no child to go on with |
| UThread.Library.FindByChild | Thread Library/libuthread/uthread.c:199-199 | The first record in blocked whose tid_child is the exiting thread |
| UThread.Library.RunNextThread | Thread Library/libuthread/uthread.c:166-179 | The first ready thread becomes the running one, if there is one |
| UThread.Library.Exit | Thread Library/libuthread/uthread.c:185-208 | An exit by any caller changes the queues as the state machine says, with the caller retired even when nothing can run after it; with nothing in running the dequeue fails |
| Fat.ChainIsUnique | File System/libfs/fs.c:479-481 | A chain is determined by its first block |
| Fat.EndsOnce | File System/libfs/fs.c:479-481 | Following a chain meets the end marker at its last block only |
| Fat.LinkAllExtends | File System/libfs/fs.c:484-507 | Linking the first n free blocks appends them to the chain in increasing order and takes them off the free list |
| Volume.CreateKeepsWellFormed | File System/libfs/fs.c:296-322 | With a free block, creation adds a one-block chain and keeps chains disjoint, ended and covering the used entries |
| Volume.CreateNeedsFreeBlock | File System/libfs/fs.c:312-324 | Without one, no assignment of chains makes the resulting volume well-formed |
| Volume.CreateExactly | File System/libfs/fs.c:296-324 | Creation keeps the volume well-formed if and only if a block was free |
| VolumeEffects.CreateSucceedsExactly | File System/libfs/fs.c:282-310 | Creation succeeds if and only if the name has 1 to 16 characters and fewer than 128 files exist; a refusal changes nothing |
| VolumeEffects.CreatedFile | File System/libfs/fs.c:296-322 | The new file takes the first empty entry and the first free block and has size 0; all else stays |
| VolumeEffects.CreatedWithoutBlock | File System/libfs/fs.c:296-322 | With no free block it takes the entry with the start that was left in it |
| Volume.DeleteLoopHangs | File System/libfs/fs.c:347-352 | The loop stays on its first block, so it reaches the end marker if and only if it starts there, and has cleared that entry otherwise |
| Volume.FoundExactly | File System/libfs/fs.c:342-343 | A file that no other entry reads like is found by its name if and only if the name is shorter than 16 characters or the lowest byte of the size is 0 |
| Volume.DeleteEndsExactly | File System/libfs/fs.c:342-365 | Deletion by any name ends if and only if the start of the entry is marked as an end, and for a file if and only if that is its single block |
| VolumeEffects.DeleteRefusesExactly | File System/libfs/fs.c:342-369 | Deletion answers -1 if and only if no entry reads as the name |
| Volume.DeleteExactly | File System/libfs/fs.c:342-365 | A deletion that ends keeps the volume well-formed if and only if it was given a name; it then frees the one block of the file and keeps every other chain |
| Volume.EmptyNameTakesBlock | File System/libfs/fs.c:342-365 | A deletion of the empty name that ends frees the last block of a file, or block 0, when the old start is a data block, and no chains fit the table and the directory then |
| Volume.EmptyNameExactly | File System/libfs/fs.c:342-365 | After it chains can fit if and only if the old start was no data block |
| Volume.CreateThenDelete | File System/libfs/fs.c:296-365 | Creating and deleting restores the table if and only if no earlier entry reads as the name |
| Volume.AllocateKeepsWellFormed | File System/libfs/fs.c:477-508 | Allocation extends one chain by the first n free blocks, leaves every other chain untouched and keeps the volume well-formed |
| Volume.AppendCoversSize | File System/libfs/fs.c:524-545 | A write at the end leaves the file with at least the blocks its new size needs, and the size does not overflow |
| Volume.RecordedSizeExactly | File System/libfs/fs.c:524-542 | A growing write records the size the bytes need if and only if it starts at the end |
| Volume.WriteCoversExactly | File System/libfs/fs.c:524-542 | A growing write keeps the volume well-formed, and leaves blocks for the recorded size if and only if the chain and the new blocks make up as many |
| VolumeEffects.WriteInside | File System/libfs/fs.c:524-542 | A write that stays inside the file succeeds and leaves table, directory and count as they were |
| VolumeEffects.WriteExactly | File System/libfs/fs.c:524-542 | A write succeeds if and only if it finds the blocks it asks for; no write lowers a size or touches another entry |
| VolumeEffects.NewBlocksHold | File System/libfs/fs.c:525-534 | A write asks for just enough blocks for the bytes behind the end, and for one fewer when the file is empty |
| VolumeEffects.AppendStaysTightExactly | File System/libfs/fs.c:524-542 | After a write at the end a file has no block too many if and only if it was empty or the room in its last block was not enough |
| VolumeRuns.FormattedExactly | File System/libfs/fs.c:91-191 | A formatted volume is well-formed if and only if its count of files is 0 |
| VolumeFailures.OverlapLosesBlocks | File System/libfs/fs.c:524-545 | On every formatted volume of three blocks or more, creating a file, giving it 4096 bytes and writing 4097 bytes over them leaves it without the blocks for its size |
| VolumeFailures.SecondByteWastes | File System/libfs/fs.c:524-542 | A legal run after which a file of two bytes has two blocks |
| VolumeFailures.CreationWithoutBlock | File System/libfs/fs.c:312-324 | With one data block, the second file is created without a block, and no chains make the volume well-formed |
| VolumeFailures.DuplicateName | File System/libfs/fs.c:296-365 | Creating a file twice and deleting it does not restore the table |
| VolumeFailures.DeletionHangs | File System/libfs/fs.c:347-352 | Deleting a file of two blocks does not end |
| VolumeFailures.NameIsLost | File System/libfs/fs.c:342-343 | A file with a name of 16 characters is created and written to; unless the lowest byte of its size is 0, its name finds nothing and deleting it answers -1 |
| VolumeFailures.EmptyNameDamages | File System/libfs/fs.c:342-365 | A legal run of two creations, a deletion and an appending write, after which deleting the empty name takes the second block of the file that is left |
| VolumeRuns.CreateTakesFirst | File System/libfs/fs.c:312-319 | Creation takes the first block off the free list |
| VolumeRuns.ReleaseCount | File System/libfs/fs.c:354-356 | Freeing a used block adds one to the free list |
| VolumeRuns.AfterInv | File System/libfs/fs.c:280-545 | After every run of creations, writes at the end of or inside a file, and single-block deletions the volume is well-formed, every size has its blocks, and free blocks plus chain lengths plus block 0 make up the volume |
| FileSystem.FileSystem.FirstFreeBlock | File System/libfs/fs.c:486-492 | The scan finds the least free block, or none exactly when there is none |
| FileSystem.FileSystem.LastBlock | File System/libfs/fs.c:478-481 | The walk ends at the last block of the chain |
| FileSystem.FileSystem.AllocateBlocks | File System/libfs/fs.c:477-508 | Extends the chain in place, or stops exactly when too few blocks are free |
| FileSystem.FileSystem.Create | File System/libfs/fs.c:280-325 | The in-place update is the creation on values, with its error answers |
| FileSystem.FileSystem.Delete | File System/libfs/fs.c:327-370 | The in-place loop and the update after it are the deletion on values; when that does not end, the loop is still running after any number of rounds, with the table it has made |
| FileSystem.FileSystem.Grow | File System/libfs/fs.c:521-542 | The head of a write: blocks asked for, allocation, 32-bit size |
| FileSystem.FileSystem.VisitBlocks | File System/libfs/fs.c:544-563 | The walk over a file's blocks visits the first blocks of its chain and never passes its end |
| DiskFormat.SuperRoundTrip | File System/libfs/fs.c:120-127 | The superblock fields survive encoding and decoding |
| DiskFormat.FatRoundTrip | File System/libfs/fs.c:134-143 | Every table entry survives, for any number of table blocks |
| DiskFormat.EntryRoundTrip | File System/libfs/fs.c:163-176 | Every root entry survives: size, start, the buffer of the name byte by byte, and so the name, whatever the memory behind its NUL held |
| DiskFormat.Umount | File System/libfs/fs.c:196-230 | Writes superblock, root directory and blocks 1..F of the table over each other in this order and no other block; every field and entry ends up at its bytes unless one of the later ones is there; refuses while files are open |
| DiskFormat.UnmountedIsLaidOut | File System/libfs/fs.c:207-230 | Bytes 0 to 16 of block 0, the pairs of bytes of the table blocks, and name, size and start at 32i, 32i + 16 and 32i + 20 of the root block |
| DiskFormat.ReadTable | File System/libfs/fs.c:133-143 | The nested loops decode every table entry |
| DiskFormat.ReadRoot | File System/libfs/fs.c:163-183 | The loop decodes every root entry and counts the named ones on top of what the count held |
| DiskFormat.MountDisk | File System/libfs/fs.c:119-190 | Every field and entry comes from its bytes on the disk, names up to their NUL, for any superblock; the answer is 0 exactly when the bytes at the start of blocks 0 and 1 are those of a disk of that size |
| DiskFormat.MountReads | File System/libfs/fs.c:119-183 | What is mounted comes from the same bytes |
| DiskFormat.ConsistentExactly | File System/libfs/fs.c:63-83 | The checks pass if and only if block 0 starts with ECS150FS, the number of blocks, F + 1, F + 2, the number of data blocks and F > 0, and block 1 with 0xFFFF |
| DiskFormat.ConsistentReadsTheDisk | File System/libfs/fs.c:63-83 | When the checks pass, no block outside the disk was read, so nothing mounted depends on unset memory |
| DiskFormat.MountFits | File System/libfs/fs.c:119-176 | Whatever is mounted can be unmounted again |
| DiskFormat.MountAfterUmount | File System/libfs/fs.c:119-230 | When the root directory lies behind the table and inside the disk, mounting after unmounting gives back every field, entry and name up to its NUL, and other blocks are untouched |
| Remount.RemountKeepsVolume | File System/libfs/fs.c:119-230 | The volume found on mounting again is the one that was unmounted, files, sizes, table and all |
| Remount.RemountExactly | File System/libfs/fs.c:119-230 | What every run keeps holds after unmounting and mounting if and only if the memory of the file count held 0 |
| Remount.RemountsKeepVolume | File System/libfs/fs.c:119-230 | However often a disk is unmounted and mounted, its volume, its superblock and its data blocks stay the same |
| Remount.RemountsExactly | File System/libfs/fs.c:119-230 | After any number of remounts what every run keeps holds if and only if the memory of the last count held 0 |
| VotingModel.ReducedKeeps | Restaurant Tinder/server.js:452-508 | A round change leaves at most half of the restaurants, rounded up, as candidates of the new round, with no votes |
| VotingModel.SearchSettles | Restaurant Tinder/server.js:357-423 | The search for a candidate ends in an offer within the bound or in a choice after round 3 |
| VotingModel.VoteWithinBallot | Restaurant Tinder/server.js:630-633 | A vote that does not complete the ballot only counts |
| VotingModel.VoteCompletesBallot | Restaurant Tinder/server.js:624-679 | A completed ballot lowers the bound on ballots to come, or the game is over by unanimity or after the last round |
| VotingUnanimity.VoteCounts | Restaurant Tinder/server.js:610-633 | A vote within a ballot is counted for its direction, and nothing else changes |
| VotingUnanimity.LastApproval | Restaurant Tinder/server.js:624-626 | The approving vote with which all players have approved chooses the restaurant |
| VotingUnanimity.LastVoteDecides | Restaurant Tinder/server.js:624-679 | The last vote of a ballot chooses a restaurant before the last round change if and only if all votes approved |
| VotingRuns.RunProgresses | Restaurant Tinder/server.js:357-731 | Along any game every ballot takes exactly one vote per player, and the ballots stay within the bound |
| VotingRuns.GameEnds | Restaurant Tinder/server.js:357-731 | A game has a chosen restaurant after at most R + 2 ceil(R/2) completed ballots, approved by all in one ballot or picked after round 3 |
| VotingUnanimity.UnanimityExactly | Restaurant Tinder/server.js:357-731 | Over every game: a restaurant is chosen before the last round change if and only if the last votes cast are a whole ballot of approvals, and it is the restaurant of that ballot |
| VotingUnanimity.FirstUnanimityEnds | Restaurant Tinder/server.js:624-626 | No earlier ballot of the game was one of approvals only |
| VotingBound.BoundIsAttained | Restaurant Tinder/server.js:357-731 | With two players or more and any number of restaurants, some game takes exactly that many ballots |
| VotingRuns.RejectedIsNeverOffered | Restaurant Tinder/server.js:362-374 | A rejected or eliminated restaurant is never offered again |
| VotingRuns.RejectedByAll | Restaurant Tinder/server.js:673-675 | A restaurant that every player rejects is no candidate any more |
| VotingRuns.MixedBallot | Restaurant Tinder/server.js:676-707 | A ballot without agreement moves its restaurant to the next round |
| VotingFairness.KeepExactly | Restaurant Tinder/server.js:452-471 | A round change can leave a set of candidates in if and only if half of the rows may be sorted before all of them |
| VotingFairness.DropExactly | Restaurant Tinder/server.js:452-471 | It can eliminate a set of candidates if and only if they and the rows with fewer negative votes are at most half |
| VotingFairness.SurvivesExactly | Restaurant Tinder/server.js:457-459 | A candidate can stay if and only if more than half of the rows have at most as many negative votes |
| VotingFairness.EliminatedExactly | Restaurant Tinder/server.js:457-459 | A candidate can go if and only if fewer than half of the rows have fewer negative votes |
| VotingFairness.LeavesNoneExactly | Restaurant Tinder/server.js:452-471 | A round change can leave no candidate if and only if the candidates and the rows below one of them are at most half |
| VotingFairness.SparesAllExactly | Restaurant Tinder/server.js:449-471 | No candidate is eliminated, however ties are sorted, if and only if at least half of the rows have fewer negative votes than each candidate |
| VotingFairness.EndExactly | Restaurant Tinder/server.js:519-578 | At the end any row can be chosen when none is a candidate, and else exactly the candidates that no candidate has fewer negative votes than |
| VotingFairness.ChoiceExactly | Restaurant Tinder/server.js:357-578 | After the last round a row can be chosen if and only if some round change leaves it a candidate, or leaves none |
| VotingFairness.ChoiceAmongSurvivors | Restaurant Tinder/server.js:494-533 | Every possible choice is least disliked among the survivors, by the votes before the reset, if and only if all survivors were tied |
| VotingFairness.FinalChoiceExactly | Restaurant Tinder/server.js:452-533 | The choice is sure to be a least disliked candidate, by those votes, if and only if all candidates were tied and the round change was sure to leave one |
| VotingUpsets.MoreDislikedWins | Restaurant Tinder/server.js:452-533 | With three players or more, a game in which the restaurant that two players reject is chosen over the one that one player rejects |
| VotingUpsets.RejectedByAllWins | Restaurant Tinder/server.js:449-565 | With two players or more, a game in which the restaurant that every player rejects is chosen over one that a player approves |
| VotingServer.SortByNeg | Restaurant Tinder/server.js:457-457 | Sorting rearranges the rows by increasing negative votes |
| VotingServer.HalfOf | Restaurant Tinder/server.js:457-459 | The first half of the sorted rows is a lower half by negative votes |
| VotingServer.Server.HandlePosVote | Restaurant Tinder/server.js:598-641 | An approving vote is a step of the model |
| VotingServer.Server.HandleNegVote | Restaurant Tinder/server.js:647-690 | A rejecting vote is a step of the model |
| VotingServer.Server.UpdateRestaurantRound | Restaurant Tinder/server.js:693-707 | The restaurant goes to the next round and the search goes on |
| VotingServer.Server.DisableCandidacy | Restaurant Tinder/server.js:719-731 | The restaurant loses candidacy and the search goes on |
| VotingServer.Server.Gameplay | Restaurant Tinder/server.js:316-327 | The game starts with the search for the first candidate |
| VotingServer.Server.NewCandidateLogic | Restaurant Tinder/server.js:357-385 | Offers some current candidate, or changes the round, or ends the game |
| VotingServer.Server.UpdateGameRound | Restaurant Tinder/server.js:388-447 | A round change followed by the search |
| VotingServer.Server.DisableMultiCandidates | Restaurant Tinder/server.js:452-474 | A lower half of the rows by negative votes loses candidacy |
| VotingServer.Server.ResetRoundVotes | Restaurant Tinder/server.js:494-508 | All votes are cleared and nothing else changes |
| VotingServer.Server.SystemEndGameplay | Restaurant Tinder/server.js:519-578 | A candidate with the fewest negative votes is chosen, or any restaurant when no candidate is left |

## Left out

- Floating point: energies, points and means are real numbers, and pixel conversion is the identity.
- Seam carving needs images on which the neighbour lookups stay inside: at least two columns for vertical
  seams of more than one row, and the same for rows. On others MATLAB stops with an index error.
- K-means starting points and the recursion on a subsample: the starting means are arbitrary.
- Preemption, context switching and stacks: only the queue transitions of the thread library are modelled.
- Freeing of thread records: records are permanent, so no address is used twice.
- UThread.Library.Create: a failing context initialisation is not modelled, and fields that the code leaves unset start at 0.
- ThreadModel.JoinExactly: a target that another thread is joining already, or that does not exist, is outside the states in which the library keeps its queues.
- UThread.Library.JoinBegin: what a program does with the pointer that a failed dequeue leaves unset is not modelled; the same holds of a yield, of an exit, and of the null child at the end of a join.
- Queue.Queue.Enqueue: null queues and failing allocation are not modelled, and no node holds a null item because none is ever stored.
- Volume.FoundExactly: names are strings, and the terminator of a name of exactly 16 characters falls into the size field, which is cleared after it; when every byte of the size and the start is non-zero, the comparison would go on into padding, which is not modelled.
- FileSystem.FileSystem.Delete: an empty entry whose old start lies outside the table is not deleted through, as the code then writes memory that is not the table's.
- File contents, `fs_open` slots, and the counter of used blocks: no property rests on them.
- DiskFormat.ConsistentExactly: with no table block the check of the first entry reads behind an empty allocation; in the model it fails.
- DiskFormat.MountDisk: the copy of a name of 16 bytes without a NUL goes on into the memory behind it; the model keeps the 16 bytes.
- The voting game keeps a fixed number of players and votes only for the restaurant on offer; sockets, the database and the restaurant search are not modelled.
- The remaining projects: the shell, the cache circuit, the weather scripts and the SIFT queries.
