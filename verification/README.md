# A verified model of the repository's protocols and planners

This project models the parts of the repository whose correctness rests on an argument rather than on
one function body, and proves what they are for. Everything is stated for all inputs, all runs or all
interleavings.

- **Expert exchange** (`ExpertAssignment`, `ExpertExchange`). Building the expert-ownership tables, and the
  two-kernel exchange of token rows between ranks. Each kernel instance is the list of copies it issues;
  a schedule picks which instance issues its next copy. In every complete interleaving of both phases each
  output element is stored once, and row `i` of rank `r` ends as the rank's token row `i / n_expt_act`.
- **Class linearisation** (`Linearisation`). The C3 merge: it succeeds exactly when a consistent order
  exists, and returns the one order that always takes the leftmost legal head.
- **Tree mirror** (`TreeMirror`, `MirrorWalk`, `MirrorRuns`). A file system with inodes, links and times;
  the folder walk and the cold copy; and runs of source changes and syncs.
- **Fetch cache** (`FetchCache`, `CacheWriters`). A repository of commits, refs and anchors; one update on
  its own, and any number of writers with their steps interleaved.
- **Rank topology** (`RankTopology`, `MoeTopology`, `PipelineLayers`, `HelixMapping`). Coordinates, groups,
  neighbours, layer splits, the mapping constructor with its checks, and the folding of helix ranks.
- **Copy elision** (`DeviceCopy`). A device buffer that skips copies, next to one that always copies.
- **Struct order, method search, test entries, patch state, configure arguments** (`StructOrder`,
  `MethodSearch`, `TestEntry`, `PatchState`, `ConfigureArgs`).

`Sequences`, `Sorting`, `Strings`, `MixedRadix` and `Reachability` hold shared notions. Code that changes
state in place is modelled by classes and methods, each proved against a specification; the theorems are
about the specification. `dafny verify dfyconfig.toml` checks the whole project.

## What turned out not to hold unconditionally

Each of these has a lemma that says exactly when the property holds.

- The launch check of the exchange admits fewer tokens on the ranks than there are globally. Rows that no
  rank dispatched are then still returned, unwritten (`ExpertExchange.ForwardsUnwrittenExactly`).
- The way back divides the rows by the number of ranks. If that leaves a remainder, rows past the last rank
  select no peer and are stored through a null base (`ExpertExchange.StoresNowhereExactly`); if more are left
  than one rank's share, two of them are stored to the same place
  (`ExpertExchange.CombineTargetsDistinctExactly`, with the input `FiveOnThree`); and with fewer rows than
  ranks the share itself is zero and is divided by (`ExpertExchange.HomesAreRanksExactly`).
- Reading a class chain never ends exactly when a path from the class comes back to itself before an
  inconsistent base is met (`Linearisation.DivergesExactly`). A test class named like the imported class it
  extends is enough (`Linearisation.SelfBaseDiverges`).
- Filling a missing destination through the archive pipe keeps the links between source files, so copies can
  share an inode with each other, though with nothing outside (`MirrorWalk.SyncTree`).
- `n_expts_per_shard` lists sizes in the dictionary's insertion order. It is the list by shard exactly
  when the keys are 0, 1, 2, ... (`ExpertAssignment.SizesByShardExactly`).
- `make_expt_dict_uniform` drops the experts after the last whole block, so its result is accepted exactly
  when the shards divide the experts (`ExpertAssignment.MakeExptDictUniform`).
- A sync keeps copies fresh exactly when file times lag by at most the race window less the tolerance and
  no sync makes links (`MirrorRuns.FreshExactly`).
- An update of the fetch cache that is given up before its prune pass is through can leave a ref with missing
  ancestry. Quiet moments are honest exactly when a prune pass that listed the refs after the last such update
  has ended (`CacheWriters.QuietHonestExactly`), and the next update is one (`CacheWriters.NextUpdateRecovers`).
- A ref whose ancestry has arrived since a writer found it missing is still deleted. It can get lost exactly if
  a writer is about to delete it (`CacheWriters.ConnectedRefLostExactly`), which takes two writers
  (`CacheWriters.NoRaceExactly`).
- A pipeline partition with a negative size splits no layers, but the lookup of a layer's rank still answers
  (`PipelineLayers.PpLayersExactly`, `PipelineLayers.PpRankOfLayer`).
- A write to the device buffer that is neither recorded nor invalidated can be missed
  (`DeviceCopy.StrayWritesShowExactly`).
- After an interruption between applying and recording a patch, applying a different patch can report
  success on a wrong tree (`PatchState.PendingThenAnotherExactly`).
- Printing and parsing a test entry is the identity exactly on the entries of `TestEntry.WellFormed`
  (`TestEntry.RoundTripExactly`).
- A struct order puts contents first exactly when no reachable struct contains itself
  (`StructOrder.DependencyOrder`).

Where the code and its comments differ, the model follows the code: an expert id out of range fails in the
counter lookup (triton_kernels/distributed.py:80) before the range check two lines below it is reached.

## Model

| member | source | states |
|---|---|---|
| ExpertAssignment.SetBit | triton_kernels/distributed.py:83-85 | or-ing one shifted by `b` into a word sets bit `b` and no other, bit 31 included |
| ExpertAssignment.BitIsShift | triton_kernels/distributed.py:161 | a bit is set exactly when the word shifted right by its index is odd, the form in which the kernels test it |
| ExpertAssignment.AcceptedExactly | triton_kernels/distributed.py:72-88 | the checks, in their order, pass exactly for dictionaries of in-range shards with non-empty in-range lists that own every expert once |
| ExpertAssignment.OneOwner | triton_kernels/distributed.py:87-88 | in an accepted dictionary each expert is owned by exactly one shard |
| ExpertAssignment.ShardListsDistinct | triton_kernels/distributed.py:87-88 | no accepted shard list names an expert twice |
| ExpertAssignment.SizesAddUp | triton_kernels/distributed.py:98 | the shard sizes of an accepted dictionary sum to the number of experts |
| ExpertAssignment.PlaceInSorted | triton_kernels/distributed.py:94-95 | the place of an expert in its sorted shard list is the number of smaller experts in the list |
| ExpertAssignment.LocalNumbersKeepOrder | triton_kernels/distributed.py:94-95 | local numbers order experts as their global numbers do and are below the list's length |
| ExpertAssignment.LocalNumbersBijective | triton_kernels/distributed.py:94-95 | every number below the length is the local number of exactly one expert of the shard |
| ExpertAssignment.SetMaskBit | triton_kernels/distributed.py:83-85 | one bit of one row of the word array changes, all others stay |
| ExpertAssignment.MarkExperts | triton_kernels/distributed.py:79-86 | one shard's experts are counted and marked in both masks, up to the first unknown expert |
| ExpertAssignment.MarkAll | triton_kernels/distributed.py:72-86 | the first pass reports the first error of the specification, or leaves counters and both masks saying exactly what the dictionary lists |
| ExpertAssignment.FillRow | triton_kernels/distributed.py:94-95 | the places of one row are numbered in the given order and nothing else is written |
| ExpertAssignment.NumberExperts | triton_kernels/distributed.py:94-95 | exactly the shard's experts get their local numbers |
| ExpertAssignment.NumberAll | triton_kernels/distributed.py:93-95 | the second pass numbers every owned expert and leaves -1 elsewhere |
| ExpertAssignment.MakeExptAssignment | triton_kernels/distributed.py:60-99 | accepted exactly when valid, with the first failing check as error; the masks agree bit for bit with ownership and with each other, padding bits are clear, the map holds local numbers, sizes sum to the total |
| ExpertAssignment.UniformAccepted | triton_kernels/distributed.py:29-39 | equal blocks form an accepted dictionary exactly when there are experts and the shards divide them |
| ExpertAssignment.MakeExptDictUniform | triton_kernels/distributed.py:29-39 | shard `i` gets block `i`; the result is accepted exactly when the shards divide the experts |
| ExpertAssignment.CutUp | triton_kernels/distributed.py:54-56 | cutting a permutation at increasing borders gives consecutive non-empty pieces that make it up |
| ExpertAssignment.PiecesAccepted | triton_kernels/distributed.py:42-57 | such pieces form an accepted dictionary |
| ExpertAssignment.MakeExptDictRandom | triton_kernels/distributed.py:42-57 | it succeeds exactly for one shard or up to as many shards as experts, for every permutation and every sample of cut points, and the result is then accepted if there are experts |
| ExpertAssignment.SizesByShardExactly | triton_kernels/distributed.py:98 | the size list is the list by shard, for every valid dictionary with given keys, exactly when the keys are 0, 1, 2, ... |
| ExpertExchange.StepKeepsInvariant | triton_kernels/distributed.py:172-177 | one copy of one instance keeps: stored cells are those of issued copies, each stored once, with the source's value, and a fault exactly if an unwritten cell was loaded |
| ExpertExchange.EveryRunKeepsTally | triton_kernels/distributed.py:172-177 | in every schedule of any copies the stored cells are those of the issued copies, and a fault says exactly that an unwritten cell was loaded |
| ExpertExchange.EveryRunKeepsInvariant | triton_kernels/distributed.py:172-177 | with distinct targets, at every moment of every schedule each cell is stored once and holds what it was given |
| ExpertExchange.EveryRunCanFinish | triton_kernels/distributed.py:172-177 | no schedule gets stuck: each can be continued until all instances have finished |
| ExpertExchange.OwnerSumIsOwner | triton_kernels/distributed.py:161-162 | the sum of rank times mask bit over the ranks is the owner's number |
| ExpertExchange.OwnerRankOwns | triton_kernels/distributed.py:161-166 | the rank a row is sent to is the one rank whose mask has the expert |
| ExpertExchange.PairsExactly | triton_kernels/distributed.py:172-177 | for every block size the masked block loop stores each destination and column once and nothing else |
| ExpertExchange.ColumnLoop | triton_kernels/distributed.py:172-177 | the block loop issues the stores of the specification in order |
| ExpertExchange.DispatchInstance | triton_kernels/distributed.py:152-177 | one dispatch instance issues the copies of its program |
| ExpertExchange.CombineInstance | triton_kernels/distributed.py:233-257 | one combine instance issues its copies, and none if its rank does not own the expert |
| ExpertExchange.DispatchTargetsDistinct | triton_kernels/distributed.py:152-177 | no two dispatch copies on any ranks store to the same element |
| ExpertExchange.HomesAreRanksExactly | triton_kernels/distributed.py:235-264 | every slot goes back to a rank exactly when the ranks divide the slots, and the share is zero exactly when there are fewer slots than ranks |
| ExpertExchange.CombineTargetsDistinct | triton_kernels/distributed.py:233-257 | no two combine copies store to the same place if no more slots are left over than one rank's share, or the share is zero; places past the last rank count as one buffer, the null base |
| ExpertExchange.CombineTargetsDistinctExactly | triton_kernels/distributed.py:233-257 | they are distinct exactly then, or if there are no columns to store |
| ExpertExchange.FiveOnThreeCollides | triton_kernels/distributed.py:191-257 | three ranks of one token each and five tokens in all: the launch admits it, and two rows are stored to the same place |
| ExpertExchange.DispatchDelivers | triton_kernels/distributed.py:152-177 | after a complete dispatch, every dispatched slot holds its token's row on the owner of its expert |
| ExpertExchange.DispatchWritesOnly | triton_kernels/distributed.py:152-177 | and nothing but dispatched slots is written |
| ExpertExchange.DispatchNeverFaults | triton_kernels/distributed.py:172-177 | no dispatch instance loads an element that is not there |
| ExpertExchange.RowComesHome | triton_kernels/distributed.py:233-257 | an output row comes back as the token row it was made from |
| ExpertExchange.RoundTrip | triton_kernels/distributed.py:180-287 | in every interleaving of both phases, with the barrier between them and every token held by a rank, each output element is stored exactly once, nothing unwritten is forwarded, and row `i` of rank `r` equals its token row `i / n_expt_act` |
| ExpertExchange.ForwardsUnwrittenExactly | triton_kernels/distributed.py:191-214 | an unwritten row is forwarded exactly when some token is held by no rank and there are rows to forward |
| ExpertExchange.StoresNowhereExactly | triton_kernels/distributed.py:235-257 | a complete exchange stores to no rank's buffer exactly when the ranks do not divide the slots and there are columns |
| ExpertExchange.AssignmentGivesOwners | triton_kernels/distributed.py:60-99 | the tables of an accepted dictionary give every expert the one owner that the kernels rely on |
| Linearisation.MergeSound | scripts/split_qa_by_gpu.py:92-107 | a merged order has no repetition, holds exactly the classes of the sequences and keeps each sequence as a subsequence |
| Linearisation.MergeComplete | scripts/split_qa_by_gpu.py:92-107 | if any order is consistent with all sequences, the merge succeeds |
| Linearisation.MergeSucceedsExactly | scripts/split_qa_by_gpu.py:92-107 | the merge succeeds exactly when a consistent order exists |
| Linearisation.MergeTakesLeftmost | scripts/split_qa_by_gpu.py:94-107 | it returns an order exactly if each class in it is the leftmost legal head of what the classes before it left |
| Linearisation.MergeNonEmpty | scripts/split_qa_by_gpu.py:92-93 | dropping exhausted sequences changes no merge |
| Linearisation.MergeLoop | scripts/split_qa_by_gpu.py:91-107 | the loop that pops heads computes the merge, after the class itself |
| Linearisation.FirstBase | scripts/split_qa_by_gpu.py:87-89 | a base is taken exactly if it names a class of the module, before those listed after it |
| Linearisation.BasesLeftToRight | scripts/split_qa_by_gpu.py:87-89 | the base list is read from left to right: the bases of a list and those of what follows it, one after the other |
| Linearisation.ClassChain | scripts/split_qa_by_gpu.py:85-108 | the recursive routine returns the chain of the specification, or its failure, or never ends where the specification diverges |
| Linearisation.BaseChains | scripts/split_qa_by_gpu.py:87-90 | the base chains are read in order up to the first failure |
| Linearisation.LineariseSound | scripts/split_qa_by_gpu.py:85-108 | a chain starts with its class, has no repetition, is closed under bases and holds ancestors only |
| Linearisation.StackIrrelevant | scripts/split_qa_by_gpu.py:85-90 | a chain does not depend on which chains are being read around it |
| Linearisation.LineariseExactlyAncestors | scripts/split_qa_by_gpu.py:85-108 | a chain holds exactly the class and its local ancestors |
| Linearisation.AncestorChainsKept | scripts/split_qa_by_gpu.py:90-107 | the chain of every ancestor along a path is a subsequence of the class's chain |
| Linearisation.ChainKeepsEveryAncestor | scripts/split_qa_by_gpu.py:90-107 | every ancestor has a chain, and it is a subsequence of the class's chain |
| Linearisation.ChainExistsExactly | scripts/split_qa_by_gpu.py:85-108 | a chain exists exactly when every base has one and some order agrees with the base chains and the base list |
| Linearisation.OrderExactly | scripts/split_qa_by_gpu.py:85-108 | the order of a class, exactly: its bases have orders and do not lead back to it, and what follows the class takes the leftmost legal head of the bases' orders and the base list |
| Linearisation.BasesKeepOrder | scripts/split_qa_by_gpu.py:87-107 | two bases stand in the class's order as they stand in its base list, and no class listed twice has an order |
| Linearisation.DivergesOnlyOnCycles | scripts/split_qa_by_gpu.py:85-90 | endless recursion needs an ancestor that inherits from itself, and a chain excludes one |
| Linearisation.DivergesExactly | scripts/split_qa_by_gpu.py:87-90 | reading never ends exactly when a path from the class comes back to itself, each step of it after bases that have chains |
| Linearisation.DivergesOnCyclesExactly | scripts/split_qa_by_gpu.py:87-90 | where every ancestor without cycles above it has a chain, reading never ends exactly if some ancestor inherits from itself |
| Linearisation.SelfBaseDiverges | scripts/split_qa_by_gpu.py:85-90 | the recursion never ends for a class that is its own base in the module's table |
| TreeMirror.FileSystem.CopyFile | scripts/build_wheel.py:677-679 | a copy is a new inode with the source's contents and stored time |
| TreeMirror.FileSystem.DemoteRacyMtime | scripts/build_wheel.py:628-645 | a copy of a source written within the window is backdated, any other keeps its time |
| TreeMirror.FileSystem.SoleByCount | scripts/build_wheel.py:829-832 | a link count of one means that no other file shares the inode |
| TreeMirror.FileSystem.LinkOrCopyFile | scripts/build_wheel.py:648-679 | the place ends as a link to the source exactly if that is wanted and possible, otherwise as a new copy; no existing inode is written |
| TreeMirror.FileSystem.InstallFile | scripts/build_wheel.py:838-843 | link or copy with the final time of the copy |
| TreeMirror.FileSystem.InstallFileInNewFolder | scripts/build_wheel.py:682-706 | a file of a new folder is done and nothing else changes |
| TreeMirror.FileSystem.SyncFile | scripts/build_wheel.py:813-843 | a file of an existing folder ends as a link, a new copy, or the settled sole file that was there; a folder in its place is removed; nothing else changes |
| TreeMirror.FileSystem.RemoveStale | scripts/build_wheel.py:805-812 | exactly the names that are not mirrored go, with everything below them |
| TreeMirror.FileSystem.PrepareFolder | scripts/build_wheel.py:793-812 | the folder is there, a file in its place is replaced, and it holds mirrored names only |
| TreeMirror.FileSystem.SyncFiles | scripts/build_wheel.py:801-843 | all files of the folder are done, whatever the order, and nothing else changes |
| TreeMirror.FileSystem.SyncFolder | scripts/build_wheel.py:787-843 | one step of the walk, seen from outside |
| TreeMirror.FileOwnedPersists | scripts/build_wheel.py:813-843 | later steps that leave a file alone leave it done |
| MirrorWalk.StateStep | scripts/build_wheel.py:783-843 | one more folder keeps: done folders stay done, new folders hold only what was made, everything not covered is as at the start |
| MirrorWalk.OrderStep | scripts/build_wheel.py:783-843 | the walk goes on top-down through the mirrored folders |
| MirrorWalk.AllDoneMirrors | scripts/build_wheel.py:783-843 | when every mirrored folder is done the destination has exactly the mirrored paths, and every file in it is done |
| MirrorWalk.Walk | scripts/build_wheel.py:783-843 | the walk makes the destination mirror the source, from any destination |
| MirrorWalk.CopyTree | scripts/build_wheel.py:772-781 | the cold copy has exactly the mirrored paths in new inodes; through the archive pipe copies share an inode exactly where their sources do, otherwise never |
| MirrorWalk.DemoteRacyMtimes | scripts/build_wheel.py:745-760 | afterwards every copy carries the backdated time exactly if its source was just written, shared inodes included |
| MirrorWalk.ColdPopulate | scripts/build_wheel.py:772-781 | filling a missing destination mirrors the source, writes to no existing inode and shares none with a file outside |
| MirrorWalk.SyncTree | scripts/build_wheel.py:709-850 | the destination ends with exactly the source's paths minus excluded names, of the same kinds, whatever was there; every file has the length of its source; a new one has its contents and its time, backdated by two seconds if it was written in the last two seconds; one that kept its inode without being a link is within a millisecond of an older source, and in copy mode every such sole file stays; no existing inode is written; with links a link that was there stays, and if all links can be made all files are links; without links no destination file shares an inode with a file outside, and if the destination existed with no other file at all |
| MirrorRuns.ChangeKeepsInvariant | scripts/build_wheel.py:617-625 | a source change keeps: a copy that differs from its source is older than the source by at least the tolerance |
| MirrorRuns.SyncKeepsInvariant | scripts/build_wheel.py:813-843 | a copy-mode sync keeps it and leaves every file equal to its source |
| MirrorRuns.StampIsOld | scripts/build_wheel.py:628-645 | the time of a copy is at least the window behind the sync, also when rounded down |
| MirrorRuns.CopyRunsStayFresh | scripts/build_wheel.py:617-645 | in every run of changes and copy-mode syncs with bounded lag, every sync leaves every file equal to its source |
| MirrorRuns.LateRun | scripts/build_wheel.py:617-645 | with any larger lag there is a run that ends stale |
| MirrorRuns.MixedRunCanBeStale | scripts/build_wheel.py:648-679 | with links there is a stale run at any lag |
| MirrorRuns.FreshExactly | scripts/build_wheel.py:617-645 | all runs stay fresh exactly when no sync links and the lag is at most 1.999 seconds, the window less the tolerance |
| MirrorRuns.RunSync | scripts/build_wheel.py:709-850 | the mirror itself takes the sync step that the runs are made of |
| FetchCache.IsConnected | 3rdparty/fetch_cache.py:326-339 | true exactly when the whole ancestry is present |
| FetchCache.ConnectedMonotone | 3rdparty/fetch_cache.py:52-57 | adding objects loses no connectivity |
| FetchCache.BareRepo.PruneDisconnectedRefs | 3rdparty/fetch_cache.py:367-395 | pruning with the memo leaves exactly the refs with whole ancestry |
| FetchCache.BareRepo.ReplicateSrcRefsChecked | 3rdparty/fetch_cache.py:762-781 | exactly the connected tips are anchored, and anchors keep their ancestry |
| FetchCache.BareRepo.EnsureCache | 3rdparty/fetch_cache.py:419-506 | a whole update: what it leaves when it is skipped, fails or succeeds |
| CacheWriters.StepKeepsSound | 3rdparty/fetch_cache.py:342-395 | every step of every writer keeps anchors connected, memo sets anchored and tips about to be anchored connected |
| CacheWriters.WindowExactly | 3rdparty/fetch_cache.py:496-503 | giving up matters exactly while the writer still has something to fetch or to check |
| CacheWriters.RunHasTrace | 3rdparty/fetch_cache.py:419-506 | every interleaving has its trace of states, on which the statements about its moments are made |
| CacheWriters.OwnCoverKept | 3rdparty/fetch_cache.py:367-395 | a writer stops covering a ref with missing ancestry only when the ref is gone, overwritten or complete |
| CacheWriters.RecoveryStarts | 3rdparty/fetch_cache.py:367-395 | only a new listing starts a recovery, and giving up inside the window ends it |
| CacheWriters.StepKeepsCovered | 3rdparty/fetch_cache.py:367-395 | while a prune pass that listed after the last given-up update is under way or has ended, every ref with missing ancestry is still to be checked by some writer |
| CacheWriters.EveryRunKeepsInvariant | 3rdparty/fetch_cache.py:419-506 | both hold at every moment of every interleaving |
| CacheWriters.AnchorsStayConnected | 3rdparty/fetch_cache.py:52-57 | an anchor stays, and its whole ancestry is present then and for ever after |
| CacheWriters.MemoChangesNothing | 3rdparty/fetch_cache.py:342-395 | every run with the memo goes exactly as without it |
| CacheWriters.VerifiedTipsAnchored | 3rdparty/fetch_cache.py:762-781 | a tip skipped as verified is anchored already |
| CacheWriters.SafeRefStays | 3rdparty/fetch_cache.py:387-395 | a ref whose whole ancestry is present and that no writer is about to delete stays as it is until a fetch points it elsewhere, in every interleaving |
| CacheWriters.ConnectedRefLostExactly | 3rdparty/fetch_cache.py:387-395 | from any moment a ref with its whole ancestry can get lost without a fetch exactly if some writer is about to delete it |
| CacheWriters.OnlyMissingDeleted | 3rdparty/fetch_cache.py:387-395 | a step that loses a ref deletes this ref and no other, by a writer that found the very commit it still points at disconnected |
| CacheWriters.NoRaceExactly | 3rdparty/fetch_cache.py:387-395 | a ref is never about to be deleted while its whole ancestry is present, in all runs exactly if there is one writer at most |
| CacheWriters.FinishedUpdateAnchors | 3rdparty/fetch_cache.py:762-781 | an update that ends has checked every tip of the source after its prune pass, and every tip connected at its check is anchored |
| CacheWriters.QuietCacheIsHonest | 3rdparty/fetch_cache.py:496-503 | whenever no writer is between a fetch and the end of its prune pass, and a prune pass that listed after the last given-up update has ended, every advertised ref has its whole ancestry, whatever was given up before |
| CacheWriters.NextUpdateRecovers | 3rdparty/fetch_cache.py:428-503 | from every reachable state an idle writer's next update ends such a prune pass without a step of the others and leaves exactly the refs with whole ancestry; if all was quiet before, the cache is then quiet and honest |
| CacheWriters.GivenUpUpdateLeavesRef | 3rdparty/fetch_cache.py:490-503 | whenever more updates were given up than the last ended prune pass listed after, for any such numbers, there is a run that ends quiet with a ref of missing ancestry |
| CacheWriters.QuietHonestExactly | 3rdparty/fetch_cache.py:490-503 | with so many updates given up and the last ended prune pass listed after so many of them, all such quiet moments of all runs are honest exactly when the two numbers are equal |
| RankTopology.RangeIsSteps | tensorrt_llm/mapping.py:739-759 | a stepped range is the sequence of its steps |
| RankTopology.CoordinatesOfRank | tensorrt_llm/mapping.py:696-706 | the rank at given coordinates has these coordinates |
| RankTopology.RankOfCoordinates | tensorrt_llm/mapping.py:696-706 | a rank's coordinates are in range and decode back to it |
| RankTopology.SelectedTpGroup | tensorrt_llm/mapping.py:708-710 | the selected tensor group holds the rank at its tensor coordinate |
| RankTopology.SelectedPpGroup | tensorrt_llm/mapping.py:712-714 | the selected pipeline group holds the rank at its stage |
| RankTopology.SelectedCpGroup | tensorrt_llm/mapping.py:716-718 | the selected context group holds the rank at its context coordinate |
| RankTopology.TpPartitions | tensorrt_llm/mapping.py:753-759 | the tensor groups hold every rank in exactly one place, the one its coordinates address |
| RankTopology.PpPartitions | tensorrt_llm/mapping.py:740-743 | so do the pipeline groups |
| RankTopology.CpPartitions | tensorrt_llm/mapping.py:745-751 | so do the context groups |
| RankTopology.TpGroupMembers | tensorrt_llm/mapping.py:753-759 | a tensor group is exactly the ranks of the same stage and context coordinate |
| RankTopology.CpGroupMembers | tensorrt_llm/mapping.py:745-751 | a context group is exactly the ranks of the same stage and tensor coordinate |
| RankTopology.PpNeighbours | tensorrt_llm/mapping.py:371-381 | next and previous pipeline rank change the stage by one around the circle and nothing else |
| RankTopology.CpNeighbours | tensorrt_llm/mapping.py:392-402 | next and previous context rank change the context coordinate by one around the circle and nothing else |
| RankTopology.NeighboursInverse | tensorrt_llm/mapping.py:371-402 | next and previous undo each other in both directions and stay in range |
| RankTopology.PpOrbitIsGroup | tensorrt_llm/mapping.py:371-381 | following the next pipeline rank visits exactly the pipeline group |
| RankTopology.CpOrbitIsGroup | tensorrt_llm/mapping.py:392-402 | following the next context rank visits exactly the context group |
| RankTopology.Topology.constructor | tensorrt_llm/mapping.py:739-759 | the loops build the three families of groups |
| MoeTopology.SliceCoordinates | tensorrt_llm/mapping.py:268-280 | the expert-parallel coordinates are those of the stage cut into tensor slices |
| MoeTopology.SlicePlaceExactly | tensorrt_llm/mapping.py:268-280 | the two inner coordinates make up the place in the slice for all ranks exactly when the cluster size or the expert-parallel size is one |
| MoeTopology.RunCoordinates | tensorrt_llm/mapping.py:268-280 | and those of the stage cut into expert-parallel runs |
| MoeTopology.MoeRankOfCoordinates | tensorrt_llm/mapping.py:268-280 | the four coordinates are in range and decode back to the rank |
| MoeTopology.MoeCoordinatesOfRank | tensorrt_llm/mapping.py:268-280 | every combination of coordinates belongs to one rank, which has them |
| MoeTopology.MoeGroupsPartition | tensorrt_llm/mapping.py:761-789 | each of the three families of groups holds every rank exactly once |
| MoeTopology.SelectedMoeGroups | tensorrt_llm/mapping.py:720-737 | the group each property selects holds the rank at its own coordinate |
| MoeTopology.TpAndClusterMeetOnce | tensorrt_llm/mapping.py:720-737 | a rank's tensor group and cluster group meet in that rank only |
| MoeTopology.MoeGroups.constructor | tensorrt_llm/mapping.py:761-789 | the loops build the three families |
| PipelineLayers.LayersConcatenate | tensorrt_llm/mapping.py:413-427 | over all ranks the layers concatenate to all layers in order, for the even split and every valid partition |
| PipelineLayers.PpLayersExactly | tensorrt_llm/mapping.py:413-427 | exactly when a rank gets layers, which error it gets otherwise, and how many layers: the given size, or the even share with one more for the first ranks |
| PipelineLayers.OneOwner | tensorrt_llm/mapping.py:413-427 | no two ranks own the same layer |
| PipelineLayers.EvenOwnerOwns | tensorrt_llm/mapping.py:453-460 | the closed form names a rank whose span holds the layer, also with fewer layers than ranks |
| PipelineLayers.FirstBeyondOwns | tensorrt_llm/mapping.py:446-451 | one rank at most is the first whose running total passes the layer, and without negative sizes it owns the layer |
| PipelineLayers.FindInPartition | tensorrt_llm/mapping.py:446-451 | the running total finds the owner in a partition |
| PipelineLayers.PpRankOfLayer | tensorrt_llm/mapping.py:429-460 | each error in its order, and otherwise the rank that owns the layer; for sizes with a negative one the first rank whose running total passes the layer |
| PipelineLayers.OwnerIsUnique | tensorrt_llm/mapping.py:413-460 | the answer is the only rank whose layers include the layer |
| HelixMapping.FloorDivRounds | tensorrt_llm/mapping.py:125-133 | the automatic sizes divide rounding toward negative infinity, for either sign |
| HelixMapping.ConstructExactly | tensorrt_llm/mapping.py:64-265 | the constructor returns a mapping exactly if the arguments describe it: other fields and given sizes kept, automatic expert-parallel sizes the quotients, tensor parallelism taking all if neither is given, automatic attention sizes likewise |
| HelixMapping.ConstructSucceedsExactly | tensorrt_llm/mapping.py:64-265 | exactly which arguments are accepted, by divisibility and range conditions on the arguments |
| HelixMapping.ErrorNamesFailure | tensorrt_llm/mapping.py:64-265 | the error that is raised names a condition that the arguments fail |
| HelixMapping.ConstructedMoeShape | tensorrt_llm/mapping.py:162-187 | a constructed mapping has the shape that its expert-parallel coordinates rely on |
| HelixMapping.SameMoeSizes | tensorrt_llm/mapping.py:117-133 | filling in automatic sizes again gives the same sizes, with divisions that round toward negative infinity |
| HelixMapping.FoldingNeverFails | tensorrt_llm/mapping.py:638-659 | a constructed helix mapping with its rank in range folds without error, and only the sizes that have to change do |
| HelixMapping.FoldsExactly | tensorrt_llm/mapping.py:638-641 | a constructed mapping with its rank in range folds exactly if it has helix context parallelism |
| HelixMapping.FoldedCoordinates | tensorrt_llm/mapping.py:638-659 | folding keeps stage and rank; the tensor coordinate becomes tp_rank * cp_size + cp_rank |
| HelixMapping.FoldedPpGroups | tensorrt_llm/mapping.py:638-659 | folding keeps the pipeline groups |
| HelixMapping.StageGroupsAreStretch | tensorrt_llm/mapping.py:739-759 | a stage's context groups are one stretch of the topology's list |
| HelixMapping.FoldedTpGroup | tensorrt_llm/mapping.py:638-659 | the new tensor group is the stage's old context groups one after another |
| HelixMapping.FoldedMapping | tensorrt_llm/mapping.py:638-659 | all of this for the mapping that folding a constructed helix mapping returns: same rank and world, stage, pipeline groups, tensor coordinate and tensor group |
| DeviceCopy.DeviceCopyBuffer.Invalidate | tensorrt_llm/_device_copy.py:31-35 | the record is as at the start |
| DeviceCopy.DeviceCopyBuffer.RecordCopy | tensorrt_llm/_device_copy.py:55-71 | the record is replaced, or overlaid if it is longer and has the same key and type |
| DeviceCopy.DeviceCopyBuffer.Update | tensorrt_llm/_device_copy.py:73-91 | skip, failure and copy, with buffer and record after each; a failure changes nothing |
| DeviceCopy.MatchesExactly | tensorrt_llm/_device_copy.py:37-71 | an exact match after a copy is the same key, type, shape and values; a plain match of a shorter tensor is agreement with the leading values |
| DeviceCopy.SkippedIsHeld | tensorrt_llm/_device_copy.py:76-87 | a skipped copy fits and what it would write is there, so the debug check cannot fire |
| DeviceCopy.StepKeepsInvariant | tensorrt_llm/_device_copy.py:31-91 | every event that keeps the callers' side keeps the record true and both buffers agreeing |
| DeviceCopy.RunKeepsInvariant | tensorrt_llm/_device_copy.py:31-91 | the same over every run |
| DeviceCopy.ElisionIsInvisible | tensorrt_llm/_device_copy.py:73-91 | after every such run the buffer holds what always copying would leave, exactly so where only identical values compare equal |
| DeviceCopy.StrayWritesShowExactly | tensorrt_llm/_device_copy.py:37-53 | after unrecorded writes an update still agrees exactly if it copies or the writes left every place it covers as it should be |
| DeviceCopy.UnrecordedWriteIsMissed | tensorrt_llm/_device_copy.py:73-91 | a run in which an unrecorded write is missed |
| StructOrder.FinishStruct | scripts/generate_fmha_params.py:605-613 | appending a struct whose contents have been seen keeps the visit's invariant |
| StructOrder.Visitor.Visit | scripts/generate_fmha_params.py:605-613 | the visit keeps it, marks the struct and appends it last |
| StructOrder.VisitedAll | scripts/generate_fmha_params.py:600-616 | a finished visit has seen exactly what is reachable, contents first exactly if nothing contains itself |
| StructOrder.DependencyOrder | scripts/generate_fmha_params.py:600-616 | exactly the reachable structs, each once, the root last, contents first exactly if no reachable struct contains itself; only a missing root fails |
| MethodSearch.MatchesExpansion | scripts/check_test_list.py:542-549 | taking all digits decides whether some number of digits makes the name an expansion |
| MethodSearch.EndsNumberExactly | scripts/check_test_list.py:547 | what may follow the digits is the end, a final line break, or an underscore and anything |
| MethodSearch.MatchesParameterized | scripts/check_test_list.py:542-549 | true exactly if the name expands one of the methods |
| MethodSearch.Search.HasMethod | scripts/check_test_list.py:552-571 | a find is real; without one everything visited defines nothing and has its bases visited |
| MethodSearch.NothingFound | scripts/check_test_list.py:552-571 | exhausting what was visited from nothing excludes every inherited definition |
| MethodSearch.ClassHasMethod | scripts/check_test_list.py:552-571 | the search ends on all class tables and succeeds exactly if a class reachable through bases defines the method or an expansion's stem |
| TestEntry.ParseByWord | scripts/check_test_list.py:79-84 | a line is parsed by one word of it alone |
| TestEntry.MarkersIgnored | scripts/check_test_list.py:79-84 | whatever follows the word after whitespace changes nothing, unless the line was a lone dash |
| TestEntry.ListPrefixIgnored | scripts/check_test_list.py:82-83 | a list dash changes nothing, unless the line is a comment or has one already |
| TestEntry.QualifierStripped | scripts/check_test_list.py:89-92 | a qualifier is stripped from any token, once: the path is what follows its slash |
| TestEntry.QualifierIgnored | scripts/check_test_list.py:89-92 | so it changes the verdict of no token whose own path is not qualified; a malformed token is reported as written |
| TestEntry.UnqualifiedExactly | scripts/check_test_list.py:90-92 | a path with a colon loses everything up to its first slash, any other path stays |
| TestEntry.ParamExactly | scripts/check_test_list.py:101-106 | the parameter is what stands between the first opening and the last closing bracket; without a closing one there is none |
| TestEntry.TestsExactly | scripts/check_test_list.py:85-109 | exactly which tokens are tests: the path, unqualified, is a stem followed by .py, and the part after it, or after one more piece for the class, names a function; and what the test is |
| TestEntry.NoDelimiterNoTest | scripts/check_test_list.py:85-86 | a token without a delimiter is none |
| TestEntry.PartParses | scripts/check_test_list.py:101-106 | printed brackets are the ones that are found, whatever brackets the parameter holds |
| TestEntry.ParsedFields | scripts/check_test_list.py:87-109 | every field of a parsed entry is a stretch of the token between its delimiters |
| TestEntry.RoundTripExactly | scripts/check_test_list.py:840-845 | parsing a printed entry returns it exactly if the entry is well-formed |
| PatchState.StartOver | 3rdparty/patch_dependency.py:99-111 | from any point of the command starting over ends as going on does |
| PatchState.RunKeepsOutcome | 3rdparty/patch_dependency.py:99-111 | interruptions and reruns, however many, never change what the command will come to |
| PatchState.InterruptedEndsTheSame | 3rdparty/patch_dependency.py:99-111 | an interrupted and rerun command ends in the tree, record and verdict of an uninterrupted one |
| PatchState.InterruptedRunEnds | 3rdparty/patch_dependency.py:99-111 | every run, however interrupted, is there after four more steps |
| PatchState.ApplyOutcome | 3rdparty/patch_dependency.py:90-111 | all outcomes of the command by what is applied and what applies |
| PatchState.FailureIsHarmless | 3rdparty/patch_dependency.py:99-111 | a failing command leaves the tree alone but for undoing the recorded patch |
| PatchState.OtherFilesKept | 3rdparty/patch_dependency.py:90-111 | no file that neither patch names ever changes, at any point of any run |
| PatchState.UpdateOutcome | 3rdparty/patch_dependency.py:124-136 | all outcomes of an update; it moves only from the sources of its commit |
| PatchState.RunKeepsPinned | 3rdparty/patch_dependency.py:99-139 | over all runs of complete and interrupted commands the tree is the pinned sources, with the recorded or the pending patch |
| PatchState.CompleteApply | 3rdparty/patch_dependency.py:99-111 | after any such run a complete apply leaves the pinned sources plus the patch, recorded |
| PatchState.CompleteUpdate | 3rdparty/patch_dependency.py:114-139 | after any such run a complete update leaves the new commit's sources, or refuses if a patch is pending |
| PatchState.PendingThenAnotherExactly | 3rdparty/patch_dependency.py:99-111 | when another patch follows a pending one, exactly when the result is right and exactly when it is wrong but reported as success |
| PatchState.Dependency.UndoPatch | 3rdparty/patch_dependency.py:90-96 | undoes an applied patch, accepts an unapplied one, refuses a partly applied one unchanged |
| PatchState.Dependency.CmdApply | 3rdparty/patch_dependency.py:99-111 | the command comes to the outcome of its steps |
| PatchState.Dependency.CmdUpdate | 3rdparty/patch_dependency.py:124-136 | so does the update |
| ConfigureArgs.NameOfDefine | scripts/build_wheel.py:129-139 | padding, quotes, type and value do not change which variable an argument defines |
| ConfigureArgs.DefinesExactly | scripts/build_wheel.py:129-139 | exactly which arguments define a variable: stripped, -D, the name, and the end, a type or a value |
| ConfigureArgs.Canonical | scripts/build_wheel.py:158-166 | the loop yields the sorted winning definitions followed by the sorted other arguments |
| ConfigureArgs.CanonicalEqualExactly | scripts/build_wheel.py:142-168 | two lists have the same canonical form exactly if every variable's last definition and the multiset of other arguments agree |
| ConfigureArgs.ReorderingKeeps | scripts/build_wheel.py:142-168 | any reordering that keeps the definitions of each variable in order keeps the canonical form |

## Left out

- The kernels' pointer arithmetic, strides, alignment and data types; a buffer is a set of cells, and a load of a cell that was never written counts as a fault. Strides are taken as one row apart.
- What a store through a null base does: it counts as a store to a place that is no rank's buffer. What a division by a share of zero yields: it counts as no rank.
- Memory ordering inside one kernel launch beyond the interleaving of whole loads and stores; the barrier between the phases is taken to separate them.
- ExpertAssignment.MakeExptAssignment: does not model the type check of the shard lists, because every list has the right type here.
- ExpertAssignment.MakeExptDictRandom: the random generator is a parameter, any permutation and any sample of distinct cut points.
- `RecursionError` of the class chain is modelled as a divergence outcome, recognised by meeting a class whose chain is being read.
- TreeMirror: symbolic links, a source that is the destination, failing time updates, and directory times and modes; which files can be linked and whether the archive pipe is used are parameters. The link count of a directory is taken to play no role.
- MirrorRuns.FreshExactly: a rename that carries an old time into a mirrored place is not counted as a write; nothing is written while a sync runs.
- The cold copy's fallback after an archive pipe that fails, which raises because the destination then exists.
- FetchCache: the shallow pool, whose anchors are unchecked by design, the stand-in repository, large files, environment hardening and configuration; git commands succeed except for compare-and-swap mismatches, a failing fetch and an update that stops.
- MoeTopology: context parallelism above one and weight sharing across data-parallel workers, for which the groups are built differently; device meshes and process groups.
- `to_dict` and `from_dict` of the mapping, which would only add easy members.
- HelixMapping.FoldedMapping: says nothing of mappings with negative tensor sizes, which the constructor admits but for which there are no groups.
- DeviceCopy: pinned memory, streams and the debug mode's own read-back; element equality and conversion are parameters.
- StructOrder: reading annotations; a field carries the struct name its annotation resolves to, and schemas file structs under their own names, as their reader builds them.
- MethodSearch: what counts as a digit is a parameter; reading classes from Python sources, and constant resolution, which would need a semantics of Python.
- TestEntry: what counts as whitespace is a parameter.
- PatchState: a patch is a non-empty map from file to distinct contents before and after, applied and recorded in one step each; fuzzy application, submodules and resolving the target commit are not modelled.
- ConfigureArgs.CanonicalEqualExactly: is about the canonical list; its JSON encoding and its hash are not modelled.
- `setup.py`, the logger, plotting, documentation and release scripts, and the floating-point tables, which would only add easy members or are not about integers.
