# Verified models of ParaCrash, Recorder and h5inspect

ParaCrash records the calls that the servers of a parallel file system make, works out which disk states a crash can
leave, rebuilds each of them and checks it. Recorder traces the calls of the application and h5inspect maps the bytes
of an HDF5 file to its objects. This project models the algorithms on which the answers of these tools rest and proves
what they are for.

Run `dafny verify dfyconfig.toml` (Dafny 4.11) in this directory.

| file | what it models |
|---|---|
| `Options`, `Sequences`, `Arithmetic`, `Bits`, `Digraphs` | optional values, lists without repetitions, quotients and remainders, bits of a number, paths and reachability in finite graphs with splicing and transitive reduction |
| `Traces`, `ExecGraphs` | traced calls, and the dependency graph built from them: program order, paired sends and receives, communication with the client, removal of network calls, reduction |
| `Frontiers` | the frontiers of the reduced graph and the sets of calls that a crash can cut off |
| `Causality`, `CrashStates` | persists-before, victims, and the states generated at every frontier |
| `Dedup`, `Replays`, `Pruning` | removal of states that end in a sync and of duplicate states, incremental replay on a cluster of disks, and what is left after static pruning |
| `UtHandles`, `UtHash`, `UtTerms`, `UtRuns`, `MergeSort`, `LinkSort` | uthash: the table with its chains, list, doublings and counters; what that says of its fields; whole runs of it; its merge sort |
| `RecordCodec`, `RecordTerms`, `RecordStreams`, `DiffCodec`, `PeepholeLogs` | the buffered binary trace format byte by byte and field by field, its reader, and peephole compression |
| `PosixTraces`, `SendRecv`, `Barriers`, `Striping`, `ObjectMaps` | translation of descriptor-relative calls, pairing of messages, duplicate barriers, stripe arithmetic, the map from offsets to objects |
| `ObjectWalks`, `ObjectReach`, `ObjectTerms`, `ObjectEnds`, `ObjectChecks`, `ObjectFlaws` | the recursive check of an HDF5 file's object headers: what it does call by call, what it reaches, what that says of the file alone and what its verdict is worth, when it ends, the functions themselves with the table of visited addresses and the logger, and files on which it goes wrong |

A module holds the functions that specify an operation, the class or method that performs it step by step, and the
lemmas about the specification; a method that changes state is proved against such a function or states its whole
new state.

## What the main results say

* **Crash cuts.** The frontiers that survive filtering stand one to one for the happens-before-closed sets of disk
  calls of the original trace (`Frontiers.CrashCuts`). Happens-before is reachability in the graph with an edge from
  every client-bound send to every later client-originated receive of another service; that the code adds only a few
  of these edges, splices out the network calls and reduces the graph changes nothing (`ExecGraphs`).
* **Victims.** A choice of victims is refused exactly when no set closed under persists-before keeps the last call
  without them. No transitivity is needed for this. What is left when it is not refused is closed exactly when no
  persisting chain escapes through a dropped call (`Causality.SurvivorsPersistable`), and is then the greatest such
  set; transitivity of persists-before suffices. A trace of three services and a pair of messages shows that it can
  fail (`Causality.NotTransitive`).
* **What static pruning keeps.** What is left of a frontier by no victims, or by a choice of victims that is not
  refused, is still represented by a state with the same calls other than syncs exactly when no victim is refused for
  the last of them that is no sync (`Pruning.KeptIffAnchored`). All calls that could have persisted as they are fulfil
  this, so every persistable choice, and every closed set of calls, keeps a state with the same effect on every disk;
  no two states hold the same calls (`Pruning.PrunedStates`). A choice that is not persistable can go
  (`Pruning.StateLost`).
* **Incremental replay** always reaches the state of a full replay (`Replays.Cluster.PerformCrash`).
* **uthash.** Any run of insertions and deletions, doublings included, leaves the entries that stand, in order of
  insertion, each found through its bucket. Sorting yields the one stable sort and leaves the buckets alone.
* **Traces.** Writing, reading and decompressing any list of records gives the records back, for every reference the
  compressor may pick, field by field (`PeepholeLogs.TraceAndRead`). An argument survives exactly when it is non-empty
  and free of newlines.
* **Object walk.** It expands no address twice and only reachable ones, and never fails without a cause
  (`ObjectReach.FailureHasCause`). Without dense storage it expands every reachable address, and it ends exactly when
  no reachable B-tree node comes below itself (`ObjectEnds.EndsIffNoLoop`). Its verdict is exact where external-file
  messages have good heaps and come before all messages that can fail (`ObjectReach.Verdict`); with other such
  messages a header passes exactly when the failures behind the last of them number 0, or 1 if its heap is bad
  (`ObjectReach.HeaderWithExternal`).
* **Traced calls.** Translating the lines of several processes that share one size table, and replaying the result,
  gives the files that the calls gave, call by call exactly when the call is proper (`PosixTraces.LineExact`,
  `PosixTraces.TraceExact`). Which calls are replayed is fixed line by line (`PosixTraces.TraceCalls`).

Many results are stated in terms that the code is specified with: the edges of the graph, what a place of a file leads
to, how a record prints. For each of them a lemma, mostly with a name in `Says`, says once more in the fields of the
data and without these terms what they mean, so that a mistake in a term cannot hide in both the code and its
specification.

## Where the code differs from what it is meant to do

* `ParaCrash/pfs.py:360-362` checks for equal numbers of barriers, but processes without any barrier are not counted.
  `Barriers.CountsMayDiffer` gives such a workload; `Barriers.CleanedCount` says exactly when the numbers agree.
* `ParaCrash/pfs.py:756-759` leaves out the last segment that a write touches. `ObjectMaps.LastObjectMissed` gives two
  objects and a write over both that yields only the first; `ObjectMaps.QueryComplete` says exactly when nothing is
  missed.
* `ParaCrash/pfs_csg.py:127-140` removes every state that ends in a sync, also when no other state has the same calls
  before it. `Pruning.StateLost` gives such a state; `Pruning.KeptIffAnchored` says exactly which states have another
  one. None of those without could have persisted.
* `ParaCrash/pfs_utils.py:228-231` records a size for an empty write behind the end of a file, which does not grow.
  `PosixTraces.EmptyWriteMisleads` shows a trace whose replay then differs. `ParaCrash/pfs.py:517` looks up the size
  of a file that may have none on record; `PosixTraces.UnsizedSeekFails` shows a trace of which the translation then
  raises an error although the calls succeed. `PosixTraces.StepExact` says exactly which calls are translated
  faithfully.
* `h5inspect/src/h5checker.c:7712` sets the failure count where it should raise it. `ObjectFlaws.FailureForgotten`
  gives a file with a bad header that passes because an external-file message follows the link to it, and
  `ObjectFlaws.FailuresCancel` one with two failures that add up to zero; `ObjectReach.HeaderWithExternal` and
  `ObjectReach.PlainHeader` say exactly when a header passes.
* `h5inspect/src/h5checkerV2_0.c:1070-1075` leaves a version 2 B-tree at the first node that fails, so that headers
  linked to from later nodes are not checked (`ObjectFlaws.LeftOut`).
* `h5inspect/src/h5checker.c:7463` checks a header that dense storage links to without a logger object of its own, so
  that its address is recorded as that of the group (`ObjectFlaws.BaseOverwritten`). Without dense storage the address
  recorded is the right one (`ObjectFlaws.OwnBase`).
* `h5inspect/src/h5checker.c:6966` descends to the children of a B-tree node without looking whether they have been
  visited. A node below itself makes the check run forever (`ObjectFlaws.CycleNeverEnds`,
  `ObjectFlaws.OwnChildNeverEnds`).
* `Recorder/lib/recorder-logger.c:121-123` flags at most seven arguments. `DiffCodec.DiffRestores` says exactly when
  that loses something; the caller only compresses records with up to seven.
* `Recorder/tools/C/reader.cpp:143-150` copies an argument of the reference without asking whether its slot was ever
  filled. The model fails there; `PeepholeLogs.TraceAndRead` shows that it does not happen on what the logger writes.
* The comment at `ParaCrash/pfs_csg.py:641` expects few neighbours of a removed node; the code joins any number, and
  that is what is modelled.
* An empty block list means "none" to `ParaCrash/pfs_utils.py:735` and "all" to `ParaCrash/pfs_csg.py:371`. The
  difference never shows, because states that differ on no server are caught as a prefix first
  (`Replays.DifferNonEmpty`).

## Model

| member | source | states |
|---|---|---|
| ExecGraphs.ExecGraph.AddProgramOrder | ParaCrash/pfs_csg.py:577-580 | the nodes are all calls, and the edges join exactly the calls of a service that follow each other in time |
| ExecGraphs.ExecGraph.AddPairs | ParaCrash/pfs_csg.py:582-588 | exactly one edge from each paired send to its receive is added |
| ExecGraphs.ExecGraph.AddClientEdges | ParaCrash/pfs_csg.py:590-612 | the edges added are exactly those from a client-bound send to a client-originated receive of another service with no such send of the first and no such receive of the second in between |
| ExecGraphs.ExecGraph.Dependencies | ParaCrash/pfs_csg.py:574-612 | the graph holds all calls and exactly the three kinds of edges |
| ExecGraphs.EdgesSay | ParaCrash/pfs_csg.py:582-612 | an edge between services goes from a send to its partner, or from a send without one to a receive without one; every later such receive of another service is reached from such a send |
| ExecGraphs.HappensSays | ParaCrash/pfs_csg.py:574-612 | happens-before is the least transitive relation that holds along the calls of a service, from a send to its partner, and from a send without one to every later receive without one of another service |
| ExecGraphs.HappensAlong | ParaCrash/pfs_csg.py:574-612 | it does hold along these |
| ExecGraphs.StandIn | ParaCrash/pfs_csg.py:600-612 | for any causal client edge, a kept edge leads from the same or a later send of the service to the same or an earlier receive of the other |
| ExecGraphs.PrunedReachesAll | ParaCrash/pfs_csg.py:574-612 | reachability is the same as with an edge from every client-bound send to every later client-originated receive on another service |
| ExecGraphs.CausalForward | ParaCrash/pfs_csg.py:574-612 | all edges go forward in time, so the graph has no cycle |
| ExecGraphs.ExecGraph.NicelyRemoveNode | ParaCrash/pfs_csg.py:635-645 | removing a node keeps reachability between all others, and the graph has a cycle exactly when it had one |
| ExecGraphs.ExecGraph.Reduction | ParaCrash/pfs_csg.py:614-624 | exactly the network calls go; reachability between the disk calls stays; edges between services are irredundant and same-service edges stay; fails exactly on cyclic graphs |
| ExecGraphs.AdaptedKeepsReach | ParaCrash/pfs_csg.py:626-633 | the adapted reduction is a subgraph with the same reachability, in which redundant edges join calls of one service |
| ExecGraphs.BuildReduced | ParaCrash/pfs_csg.py:33-36 | from trace to reduced graph, reachability between disk calls is that of the full causal graph |
| Digraphs.SplicedReach | ParaCrash/pfs_csg.py:636-645 | joining predecessors to successors keeps every path between the other nodes |
| Digraphs.SplicedAcyclic | ParaCrash/pfs_csg.py:636-645 | splicing neither makes nor breaks cycles |
| Digraphs.ReductionReach | ParaCrash/pfs_csg.py:628-633 | dropping every edge that has a longer detour keeps reachability in an acyclic graph |
| Digraphs.DescendantsExact | ParaCrash/pfs_csg.py:431 | the iterated closure holds exactly the nodes reachable by a path |
| Traces.SortDistinct | ParaCrash/pfs_csg.py:79 | sorting calls with distinct timestamps gives the strictly time-ordered list of the same calls |
| Frontiers.Enumerate | ParaCrash/pfs_csg.py:54-70 | the frontiers left are exactly the consistent ones, each once |
| Frontiers.CutIsClosed | ParaCrash/pfs_csg.py:61-78 | the calls up to a consistent frontier are closed under happens-before |
| Frontiers.ClosedIsCut | ParaCrash/pfs_csg.py:61-78 | every closed set of calls is cut off by a consistent frontier |
| Frontiers.CutInjective | ParaCrash/pfs_csg.py:77-78 | different frontiers cut off different sets of calls |
| Frontiers.CrashCuts | ParaCrash/pfs_csg.py:33-78 | from trace to frontiers: a set of disk calls is closed in the unreduced causal graph exactly when some frontier cuts it off, and no two frontiers cut off the same set |
| Frontiers.CutsSay | ParaCrash/pfs_csg.py:61-78 | what happens before a call at or before a listed frontier is itself at or before it |
| Frontiers.EveryCutListed | ParaCrash/pfs_csg.py:54-78 | for every set of disk calls that holds all that happens before its members there is a listed frontier with just these calls at or before it |
| Causality.PersistsIsHappens | ParaCrash/pfs_csg.py:439-449 | persists-before implies happens-before |
| Causality.PersistsSays | ParaCrash/pfs_csg.py:439-449 | on one service a call persists before what it happens before; across services exactly when a sync of its path, or of the source or the destination of a link or a renaming, lies in between |
| Causality.ChainRule | ParaCrash/pfs_csg.py:439-449 | persists-before followed by happens-before persists, unless the first two share a service that the third does not |
| Causality.ThreeStepsCollapse | ParaCrash/pfs_csg.py:439-467 | three persisting steps are always one or two, which is why looking two steps ahead suffices |
| Causality.GreatestPersistable | ParaCrash/pfs_csg.py:83-109 | the calls not doomed by the victims form the greatest persistable set without them |
| Causality.RefusedIffImpossible | ParaCrash/pfs_csg.py:451-467 | a victim is refused exactly when every persistable set that keeps the pivot keeps the victim |
| Causality.SurvivorsPersistable | ParaCrash/pfs_csg.py:83-109 | the survivors form a persistable set exactly when nothing escapes, and are then the greatest one without the victims |
| Causality.TransitiveNoEscape | ParaCrash/pfs_csg.py:83-109 | nothing escapes where persists-before is transitive on the frontier |
| Causality.ChoiceRefusedIffImpossible | ParaCrash/pfs_csg.py:83-109 | some victim of a choice is refused exactly when no persistable set keeps the pivot without all of them |
| Causality.NotTransitive | ParaCrash/pfs_csg.py:440-467 | in the reduced graph of a trace of three services with one pair of messages, persists-before is not transitive and the survivors of an accepted victim are not persistable |
| Causality.SampleBuilt | ParaCrash/pfs_csg.py:574-633 | building and reducing the graph of that trace yields such a graph |
| CrashStates.CausalityTables.HappensBefore | ParaCrash/pfs_csg.py:427-437 | the table says of each pair of calls whether a path joins them |
| CrashStates.CausalityTables.PersistsTable | ParaCrash/pfs_csg.py:439-449 | the table is the persists-before relation |
| CrashStates.CausalityTables.EntrySays | ParaCrash/pfs_utils.py:827-832 | the same of the entries of the table, by the kind of the call |
| CrashStates.CausalityTables.PersistsBeforeAll | ParaCrash/pfs_csg.py:451-467 | None exactly when the pivot persists after the base call directly or through one call; otherwise the base call and all that persists after it |
| CrashStates.LaterCalls | ParaCrash/pfs_csg.py:91 | scanning only the calls after the victim decides refusal and finds all that goes with it |
| CrashStates.Try | ParaCrash/pfs_csg.py:86-109 | a choice of victims yields no state exactly when one of them is refused, and otherwise the frontier without all that is dropped |
| CrashStates.RefusedChoice | ParaCrash/pfs_csg.py:83-109 | one or two victims are refused exactly when no persistable set of calls keeps the last call without them |
| CrashStates.AtFrontier | ParaCrash/pfs_csg.py:76-109 | at a frontier the base state and a state for every acceptable choice of one or two victims are made, and nothing else |
| CrashStates.Crash | ParaCrash/pfs_csg.py:50-109 | every state comes from a consistent frontier, and every consistent frontier yields all its states |
| CrashStates.StateSays | ParaCrash/pfs_csg.py:76-109 | a state holds the calls at or before its frontier in time order, less its one or two victims and what persists only after them; its record names the last call, the layer and what was dropped |
| CrashStates.BaseMade | ParaCrash/pfs_csg.py:79-80 | for every frontier there is a state with all calls at or before it |
| CrashStates.StateMade | ParaCrash/pfs_csg.py:83-109 | for every one or two calls at or before it that are no syncs and need not persist for the last one there is the state without them and what persists only after them |
| Dedup.PruneFsync | ParaCrash/pfs_csg.py:127-140 | exactly the states that end in a sync go |
| Dedup.RemoveDuplicates | ParaCrash/pfs_csg.py:145-165 | exactly the representatives stay; no state is removed twice, so no removal fails |
| Dedup.OneRepresentative | ParaCrash/pfs_csg.py:145-161 | every group of states with the same calls has exactly one representative |
| Dedup.SameSays | ParaCrash/pfs_csg.py:145-148 | states count as the same exactly when they hold the same calls |
| Dedup.WhichStays | ParaCrash/pfs_csg.py:149-161 | of two such states the second stays, unless the first stems from MPI or both are reordered and the first dropped fewer calls |
| Replays.ContainsIsPrefix | ParaCrash/pfs_csg.py:388-407 | a length is returned exactly when the other state is a prefix, and the servers of the suffix are those that differ |
| Replays.SameOnOthers | ParaCrash/pfs_csg.py:409-412 | on a server that does not differ, both states leave the same disk |
| Replays.DifferNonEmpty | ParaCrash/pfs_check:62-87 | a state that is not an extension of the last one differs on some server |
| Replays.Cluster.Restore | ParaCrash/pfs_utils.py:732-748 | exactly the listed servers, or all, go back to the snapshot |
| Replays.Cluster.Emulate | ParaCrash/pfs_csg.py:369-382 | the calls from a position on are performed on the listed servers, on all if the list is empty, and no other disk changes |
| Replays.Cluster.PerformCrash | ParaCrash/pfs_check:56-127 | whatever was checked before and whether or not replay is incremental, the state checked is that of a full replay from the snapshot |
| Pruning.SurvivorsMean | ParaCrash/pfs_csg.py:83-109 | the pivot is the last of the calls of a state; they could have persisted exactly when nothing escapes, and are then all that could have without the victims |
| Pruning.GeneratedSurvive | ParaCrash/pfs_csg.py:76-109 | every state generated holds the survivors of no victims or of a choice that is not refused, with the last call of the frontier as pivot |
| Pruning.SurvivorsGenerated | ParaCrash/pfs_csg.py:76-109 | the survivors of every such choice at every closed set of calls are generated |
| Pruning.ShorterChoice | ParaCrash/pfs_csg.py:127-140 | without their last syncs, the survivors of an anchored choice are those of its earlier victims at a shorter frontier |
| Pruning.PersistableAnchored | ParaCrash/pfs_csg.py:127-140 | survivors that could have persisted are anchored: no victim is refused for the last call that is no sync |
| Pruning.KeptIffAnchored | ParaCrash/pfs_csg.py:117-165 | the survivors of a choice still have a state with the same calls other than syncs exactly when they are anchored |
| Pruning.SameWrites | ParaCrash/pfs_csg.py:127-140 | if syncs leave the disks alone, lists that differ only in syncs leave every disk the same |
| Pruning.RunStep | ParaCrash/pfs_csg.py:369-382 | no calls leave a disk as it is, and one more call is performed on the disk of its server and no other |
| Pruning.StateLost | ParaCrash/pfs_csg.py:127-140 | a state of the sample trace that is generated but not anchored, so that no state with its writes stays |
| Pruning.KeptDiffer | ParaCrash/pfs_csg.py:145-165 | no two states that stay hold the same calls |
| Pruning.PrunedStates | ParaCrash/pfs_csg.py:50-165 | from the graph to the final states: each comes from a frontier and ends in no sync, no two hold the same calls, those with the writes of given survivors exist exactly when these are anchored, and every persistable choice and every closed set keeps its effect |
| UtHash.IdealLengthIsCeiling | Recorder/include/uthash.h:859-861 | the shift and the mask give the least chain length at which all items fit |
| UtHash.ExpandMult | Recorder/include/uthash.h:869-876 | the multiplier is positive exactly for chains longer than ideal, and at most their excess |
| UtTerms.MultSays | Recorder/include/uthash.h:869-876 | the multiplier of a chain longer than ideal is the lesser of its excess and its length in ideal lengths, rounded up |
| UtTerms.ExcessSays | Recorder/include/uthash.h:870-871 | the items that do not fit the ideal length are counted chain by chain |
| UtHash.Remainder | Recorder/include/uthash.h:441-444 | the mask takes the remainder by the number of buckets |
| UtHash.MultsAt | Recorder/include/uthash.h:869-876 | after a doubling the multiplier of each bucket is the one of its chain |
| UtHash.CountersStep | Recorder/include/uthash.h:869-876 | moving one item keeps counts, multipliers and nonideal_items (the sum of the excesses over the ideal length) right |
| UtHash.LinkFront | Recorder/include/uthash.h:780-789 | the chain gets the item at its front and all other chains stay linked |
| UtHash.UnlinkItem | Recorder/include/uthash.h:802-814 | the chain loses just the item and all other chains stay linked |
| UtHash.CountsAddUp | Recorder/include/uthash.h:527-574 | the bucket counts add up to the number of items |
| UtHash.ModelAppend | Recorder/include/uthash.h:407-436 | appending an item with a new key adds one entry to the map and keeps keys unique |
| UtHash.ModelOmit | Recorder/include/uthash.h:461-488 | leaving out an item takes just its key from the map |
| UtHash.HashTable.Find | Recorder/include/uthash.h:758-777 | finds the item that the map holds under the key, or null |
| UtHash.HashTable.Add | Recorder/include/uthash.h:407-436 | the list, the chains and the map grow by the new item; the buckets are doubled, with right bookkeeping, exactly when the bucket of the key is full and doubling is not inhibited, and all counters stay otherwise |
| UtHash.HashTable.Replace | Recorder/include/uthash.h:265-273 | the old item with the key goes, the new one comes last |
| UtHash.HashTable.Delete | Recorder/include/uthash.h:461-488 | the list and the map lose just the item; number of buckets, multipliers and expansion counters stay |
| UtHash.HashTable.AddToBucket | Recorder/include/uthash.h:780-799 | the item enters the bucket of its hash value; the table is doubled exactly when that bucket is full and doubling is not inhibited |
| UtHash.HashTable.DeleteInBucket | Recorder/include/uthash.h:802-814 | the item leaves its bucket; counts and chains stay right and no multiplier changes |
| UtHash.HashTable.ExpandBuckets | Recorder/include/uthash.h:846-896 | every item moves to its new bucket and the counters are right; the list is untouched |
| UtHash.HashTable.Sort | Recorder/include/uthash.h:903-985 | the list becomes the merge sort of its items, stable for a total preorder, with head, tail and links right and the map unchanged |
| UtTerms.ValidSays | Recorder/include/uthash.h:527-574 | keys are different, every hash value is that of its key, and the list is linked in both directions from head to tail |
| UtTerms.PlacedSays | Recorder/include/uthash.h:441-444 | an item is in the chain of the bucket that its hash value leaves as remainder by the number of buckets, and in no other |
| UtTerms.ChainSays | Recorder/include/uthash.h:527-574 | a chain is linked in both directions, holds no item twice and as many as are counted |
| UtTerms.SortedSays | Recorder/include/uthash.h:903-985 | for a total and transitive comparison of the elements, sorting keeps the items, puts smaller elements first and leaves items of equal elements in their order |
| UtRuns.StandingStep | Recorder/include/uthash.h:407-488 | one more request changes what stands by dropping its key and appending its entry |
| UtRuns.StandingMeans | Recorder/include/uthash.h:407-488 | an entry stands exactly when the last request about its key put it |
| UtRuns.StandingSays | Recorder/include/uthash.h:407-488 | an entry stands exactly when a request put it and none behind it has its key |
| UtRuns.OrderSays | Recorder/include/uthash.h:407-488 | entries stand in the order of the requests that put them |
| UtRuns.Serve | Recorder/include/uthash.h:407-488 | after any run the items are what stands, in order of insertion |
| UtRuns.FindAfter | Recorder/include/uthash.h:164-183 | after any run a lookup finds exactly what the last request about the key put |
| MergeSort.MergeStable | Recorder/include/uthash.h:932-971 | merging the stable sorts of neighbouring stretches sorts both stably |
| MergeSort.PassRuns | Recorder/include/uthash.h:920-976 | a pass turns sorted runs into sorted runs of twice the size |
| MergeSort.SortIsStable | Recorder/include/uthash.h:903-985 | the passes yield a stable sort for every total preorder |
| MergeSort.PassesPermute | Recorder/include/uthash.h:903-985 | the passes permute the list, whatever the comparison |
| MergeSort.StableSortUnique | Recorder/include/uthash.h:903-985 | there is only one stable sort |
| LinkSort.MergeRuns | Recorder/include/uthash.h:936-971 | rewriting the links in place appends the merge of the two runs to the output list |
| LinkSort.OnePass | Recorder/include/uthash.h:916-975 | one pass over the links is one pass over the sequence, and it took at most one merge exactly when it was the last |
| LinkSort.SortLinks | Recorder/include/uthash.h:903-985 | terminates for every comparison with prev, next, head and tail consistent |
| RecordCodec.MemBuf.Append | Recorder/lib/recorder-logger.c:60-71 | file and buffer together hold everything appended, and the position stays below the size |
| RecordCodec.MemBuf.Dump | Recorder/lib/recorder-logger.c:72-75 | the file holds everything appended and the buffer is empty |
| RecordCodec.Le4RoundTrip | Recorder/tools/C/reader.cpp:84-87 | a 32-bit integer is read back from its bytes |
| RecordCodec.TokensStep | Recorder/tools/C/reader.cpp:45-58 | one more word behind a space is one more token |
| RecordCodec.LineTokens | Recorder/tools/C/reader.cpp:45-58 | the tokens of a printed line are the printed arguments |
| RecordCodec.FrameBack | Recorder/tools/C/reader.cpp:76-111 | a printed record with readable arguments is decoded back |
| RecordCodec.LinesBack | Recorder/tools/C/reader.cpp:75-103 | the records are cut apart where they were put together |
| RecordCodec.RoundTrip | Recorder/tools/C/reader.cpp:61-119 | reading what was written gives the records, up to underscores and question marks, exactly when every argument is non-empty and free of newlines |
| RecordTerms.RepresentableSays | Recorder/lib/recorder-logger.c:169-170 | times fit when they lie within 2^31 microseconds of the start |
| RecordTerms.ReadableSays | Recorder/lib/recorder-logger.c:132-149 | arguments are readable when none is an empty string or holds a newline |
| RecordTerms.BareBytes | Recorder/lib/recorder-logger.c:168-177 | a record without arguments takes fifteen bytes: status, start time, end time and result in four bytes each, least significant first, function, newline; times in millionths of a second since the start, rounded towards zero |
| RecordTerms.LastArgument | Recorder/lib/recorder-logger.c:132-149 | each argument adds, in front of the newline, a space and its bytes with spaces as underscores, or three question marks for NULL |
| RecordTerms.ReadBack | Recorder/tools/C/reader.cpp:61-119 | of every record written, status, function, result, both times and every argument are read as traced, rounded and printed as above |
| RecordTerms.TokensSay | Recorder/tools/C/reader.cpp:45-58 | the tokens of a string are those in front of its last space and what is behind, if that is not empty |
| RecordTerms.SlotsSay | Recorder/tools/C/reader.cpp:84-105 | a record has as many argument slots as spaces; what is behind the first byte, up to a zero byte, fills them with its tokens, which must not be more |
| RecordStreams.Sanitise | Recorder/lib/recorder-logger.c:140-141 | spaces become underscores in the caller's string |
| RecordStreams.WriteArguments | Recorder/lib/recorder-logger.c:132-147 | prints the line of the original arguments and sanitises them in place, also when they share storage |
| RecordStreams.WriteInBinary | Recorder/lib/recorder-logger.c:168-177 | appends exactly the code of the record |
| RecordStreams.GetRecordArguments | Recorder/tools/C/reader.cpp:45-58 | the loop finds the tokens and leaves missing slots unfilled |
| RecordStreams.ReadRecords | Recorder/tools/C/reader.cpp:61-119 | the scanning loops compute the parse of the content |
| DiffCodec.StatusBits | Recorder/lib/recorder-logger.c:117-124 | bit j of the status is set exactly when argument j, below seven, differs, and bit 7 always |
| DiffCodec.GetDiffRecord | Recorder/lib/recorder-logger.c:97-129 | nothing for lists of different lengths; otherwise the status and the arguments stored are those of the positions that differ |
| DiffCodec.DiffRestores | Recorder/tools/C/reader.cpp:143-150 | decoding a difference gives the record back exactly when nothing beyond the seventh argument changed |
| DiffCodec.DecompressRecords | Recorder/tools/C/reader.cpp:121-154 | restores in place what the stream means, and fails exactly where a reference or an argument is out of bounds or a slot to be copied is unfilled |
| DiffCodec.StreamRestored | Recorder/tools/C/reader.cpp:121-154 | a stream in which each record is raw or a difference from one of the three before is restored exactly, but for the status byte |
| PeepholeLogs.StoredIsStoredAs | Recorder/lib/recorder-logger.c:188-218 | what is stored against any admissible slot of the window is a form from which a reader restores the record |
| PeepholeLogs.StoredSays | Recorder/lib/recorder-logger.c:188-218 | a record is stored against one of the same function with as many, at most seven, arguments that are not all different: the slot for the function, the arguments that differ, bit 7 and the bits of their places in the status; otherwise whole, with status 0 |
| PeepholeLogs.AllSettledAfter | Recorder/lib/recorder-logger.c:214-234 | printing only the arguments that differ leaves the record as if all had been sanitised, since the others equal sanitised ones |
| PeepholeLogs.Logger.WriteInRecorder | Recorder/lib/recorder-logger.c:181-236 | appends the stored form and shifts the window, which always holds the last three records |
| PeepholeLogs.TraceAndRead | Recorder/lib/recorder-logger.c:181-236 | logging, reading and decompressing give all records back, whichever references were picked, with function, result, times and arguments as traced |
| PosixTraces.Process.SetOffset | ParaCrash/pfs.py:509-520 | seeking changes the offset as the mode says, and fails exactly when a size is needed that is not recorded |
| PosixTraces.Process.AddSyscall | ParaCrash/pfs_utils.py:168-233 | one traced line changes tables and calls as the translation says; spelled out, a write appends exactly one write at the offset of the descriptor or of the call, an opening one creation if asked for and not ignored, other calls nothing |
| PosixTraces.Workload.AddLine | ParaCrash/pfs.py:345-346 | a line changes the tables of its process, the shared size table and the calls as the translation says, and nothing else |
| PosixTraces.Workload.CreateSyscalls | ParaCrash/pfs.py:333-346 | the lines of all processes are translated one by one, and it fails exactly where a line does |
| PosixTraces.StepExact | ParaCrash/pfs_utils.py:168-233 | for a call that succeeds, tables stay right, replay has its effect and "append" is chosen exactly when the file grows, if and only if it is no empty write behind the end and no seek from an unrecorded end |
| PosixTraces.SucceedsSays | ParaCrash/pfs_utils.py:168-233 | the calls that count as successful |
| PosixTraces.EffectsSay | ParaCrash/pfs_utils.py:168-233 | what a successful call does to descriptors and to the bytes of the files |
| PosixTraces.LineExact | ParaCrash/pfs.py:480-482 | with one size table for several processes, a line of one of them keeps the tables of all right and is translated faithfully exactly when the call is proper |
| PosixTraces.TraceExact | ParaCrash/pfs_utils.py:168-233 | translating and replaying a whole such trace of any number of processes gives the same files as the calls |
| PosixTraces.TraceCalls | ParaCrash/pfs_utils.py:168-233 | line by line, what is handed over for replay: the creation of a file that an opening asks for, unless it is /dev/null; exactly one write for a write, of the same content, at the offset of the descriptor or of the call, as an append when it ends behind the end of the file; for all other calls nothing |
| PosixTraces.EmptyWriteMisleads | ParaCrash/pfs_utils.py:228-231 | a trace with an empty write behind the end whose replay gives other files |
| PosixTraces.UnsizedSeekFails | ParaCrash/pfs.py:517 | a trace that succeeds and of which the translation raises an error: a seek from the end of a file just made |
| SendRecv.MateSymmetric | ParaCrash/pfs_utils.py:564-573 | the pairing is symmetric, hence injective |
| SendRecv.MatchedPrefix | ParaCrash/pfs_utils.py:564-573 | the k-th send of a pair of services meets its k-th receive, as far as both go |
| SendRecv.MateSays | ParaCrash/pfs_utils.py:548-573 | two calls are paired exactly when neither is with the client, each is at the peer of the other, and as many calls of the same service and peer come before the one as before the other |
| SendRecv.PairAll | ParaCrash/pfs_utils.py:548-575 | every call points to its partner, and calls without one to nothing |
| SendRecv.MergeHeaders | ParaCrash/pfs_utils.py:528-546 | each content goes to the earliest open header from its peer and is dropped; the header holds both contents and the sum of their lengths, nothing else changes, and what is received from each peer stays the same |
| SendRecv.CompletedOnce | ParaCrash/pfs_utils.py:536-545 | no header is completed twice |
| SendRecv.TargetSays | ParaCrash/pfs_utils.py:532-545 | a receive completes a header exactly when it is none itself and the header is the earliest from the same peer that none before it completes |
| Barriers.GapIsGroup | ParaCrash/pfs.py:368-370 | barriers are adjacent exactly when the group between them is empty |
| Barriers.GroupsSay | ParaCrash/pfs.py:351-357 | a call is in the group of the barriers before it, at its distance from the last of them |
| Barriers.DuplicatesAre | ParaCrash/pfs.py:364-374 | barriers go exactly where all processes have equally many and a group after the first is empty in all of them |
| Barriers.LookupFails | ParaCrash/pfs.py:364-371 | the lookup of a barrier fails exactly when a process without barriers comes behind processes that all have it right behind the one before it |
| Barriers.CleanedGroups | ParaCrash/pfs.py:376-379 | each process loses just these groups; all other groups keep their calls and their order |
| Barriers.NumberedIds | ParaCrash/pfs.py:378-379 | the remaining barriers are numbered from 1 without gaps |
| Barriers.CleanedCount | ParaCrash/pfs.py:376-379 | all processes end with equally many barriers exactly when they started so |
| Barriers.CountsMayDiffer | ParaCrash/pfs.py:360-362 | a workload with different numbers of barriers that passes the check |
| Barriers.Workload.RemoveDuplicates | ParaCrash/pfs.py:349-379 | every process list becomes the cleaned one; fails exactly where the check or a lookup does |
| Striping.PlaceBijective | ParaCrash/pfs.py:660-662 | server and local offset are a bijection with the offset in the file |
| Striping.RoundRobin | ParaCrash/pfs.py:660-662 | stripes go round the servers: byte r of stripe s in round k is byte r of stripe k on server s |
| Striping.OneExtent | ParaCrash/pfs.py:660-662 | what a range occupies on one server is one stretch of local offsets |
| Striping.PaddingAligns | ParaCrash/pfs.py:652-658 | padding gives an aligned range around the given one that overshoots its end by 1 to padding bytes |
| Striping.Locate | ParaCrash/pfs.py:649-670 | the pieces name the place of every byte once and in order, without padding just those of the range given; none crosses a stripe, and all but the last end with one |
| Striping.LengthsAddUp | ParaCrash/pfs.py:660-670 | the lengths of the pieces add up to the range |
| ObjectMaps.AddedAllMaps | ParaCrash/pfs.py:716-732 | for disjoint ranges from 0 on, every byte gets the tag of its range or FREE_SPACE, and neighbouring segments differ |
| ObjectMaps.ClosedMaps | ParaCrash/pfs.py:734 | marking the end keeps all that and tags everything behind as END_OF_FILE |
| ObjectMaps.RangeTagSays | ParaCrash/pfs.py:716-732 | the tag of an offset is that of the range that holds it, and FREE_SPACE between the ranges |
| ObjectMaps.TagAtSays | ParaCrash/pfs.py:741-763 | in the map it is that of the last item at or before the offset |
| ObjectMaps.AddedAllFails | ParaCrash/pfs.py:716-734 | building fails exactly when there are no ranges or the first does not start the file |
| ObjectMaps.ObjMapping.Build | ParaCrash/pfs.py:716-734 | the dictionary edits build that map, and fail exactly where there is no last item |
| ObjectMaps.ObjMapping.Query | ParaCrash/pfs.py:741-763 | the tags are those collected for the client writes |
| ObjectMaps.QueryOmitsLast | ParaCrash/pfs.py:750-759 | a write within one segment yields its tag, any other the tags of all segments it touches except the last |
| ObjectMaps.QueriedSays | ParaCrash/pfs.py:750-759 | the same, item by item |
| ObjectMaps.EmptyQueried | ParaCrash/pfs.py:750-759 | a write of nothing yields the tag of the item it lies in, but nothing at the start of one, and at the start of the file the tags of all items but the last |
| ObjectMaps.QueryComplete | ParaCrash/pfs.py:750-759 | nothing is missed exactly when there is one segment or the tag of the last occurs before |
| ObjectMaps.LastObjectMissed | ParaCrash/pfs.py:750-759 | a map of two objects built from their ranges, and a write over both for which only the first is returned |
| ObjectReach.WalkGrows | h5inspect/src/h5checker.c:8468-8479 | the table keeps what is in it and stays free of duplicates |
| ObjectReach.WalkSound | h5inspect/src/h5checker.c:8468-8479 | only addresses that can be reached are expanded |
| ObjectReach.WalkCloses | h5inspect/src/h5checker.c:8436-8934 | where nothing was left out, or nothing failed and no failure can get lost, everything that newly expanded headers lead to has been expanded, is free of B-tree cycles and, in the second case, of defects |
| ObjectReach.WalkIsReachability | h5inspect/src/h5checker.c:8436-8934 | a walk from the root expands reachable addresses only, each once, and all of them unless it left something out |
| ObjectReach.SparseUncut | h5inspect/src/h5checkerV2_0.c:1063-1082 | where no dense storage can be reached, nothing is left out |
| ObjectReach.FailureHasCause | h5inspect/src/h5checker.c:8436-8934 | a failure means that something reachable is wrong |
| ObjectReach.Verdict | h5inspect/src/h5checker.c:8436-8934 | where no failure can get lost, the check fails exactly when something reachable is wrong, and when it succeeds it has left nothing out |
| ObjectReach.PlainHeader | h5inspect/src/h5checker.c:7647-8042 | without external-file messages a header passes exactly when its own checks do and no message fails |
| ObjectReach.HeaderWithExternal | h5inspect/src/h5checker.c:7707-7713 | with some, it passes exactly when its own checks do and there are, behind the last of them, no failures if its heap is good and one if it is bad |
| ObjectReach.EndedStops | h5inspect/src/h5checker.c:6964-6968 | a walk of a B-tree that ends met no node that comes below itself |
| ObjectTerms.HeaderLeads | h5inspect/src/h5checker.c:7704-8022 | a header leads along hard links to defined addresses, to the B-tree of a symbol table with a good heap, and to the indexes of dense storage |
| ObjectTerms.SymbolsLead | h5inspect/src/h5checker.c:6757-6771 | a symbol table node leads along its entries that are hard links to defined addresses |
| ObjectTerms.TreeLead | h5inspect/src/h5checker.c:6964-6974 | a version 1 B-tree node leads to its children: nodes above level 0, symbol table nodes at level 0 of a symbol table |
| ObjectTerms.DenseLead | h5inspect/src/h5checkerV2_0.c:1054-1091 | a version 2 B-tree node leads along the hard links of its records, and to its children if its own bytes are good |
| ObjectTerms.ReachesSays | h5inspect/src/h5checker.c:8436-8934 | what is reached is the least that holds the place itself and what its places lead to |
| ObjectTerms.HeaderFine | h5inspect/src/h5checker.c:7647-8042 | a header is fine when it is read to its end, its own bytes are good, and no message has a bad heap or a check that fails |
| ObjectTerms.NodeFine | h5inspect/src/h5checker.c:6613-7004 | a node is fine when it can be read and its own bytes are good |
| ObjectTerms.EntriesLogged | h5inspect/src/h5checker.c:6757-6771 | a symbol table node of hard links adds a subgroup for each, in order, and leaves the base address of the group alone |
| ObjectTerms.MildIf | h5inspect/src/h5checker.c:7704-7713 | no failure can get lost if external-file messages have good heaps and stand before all others but those whose checks went well |
| ObjectTerms.SparseIf | h5inspect/src/h5checkerV2_0.c:1054-1091 | no dense storage can be reached if no header has any |
| ObjectTerms.EndsIfLevelled | h5inspect/src/h5checker.c:6964-6968 | the walk ends if levels decrease from parent to child in version 1 B-trees |
| ObjectEnds.WalkEnds | h5inspect/src/h5checker.c:8436-8934 | without such a node in reach the walk ends |
| ObjectEnds.EndsIffNoLoop | h5inspect/src/h5checker.c:8436-8934 | where no dense storage can be reached the walk ends exactly when there is no such node; in general it does if there is none, and there is none if it ends and left nothing out |
| ObjectChecks.Table.Search | h5inspect/src/h5checker.c:536-571 | true exactly when the address is in the table |
| ObjectChecks.Table.Insert | h5inspect/src/h5checker.c:574-632 | the address is appended, the array doubling when it is full |
| ObjectChecks.Checker.CheckObjHeader | h5inspect/src/h5checker.c:8436-8934 | table, verdict, subgroups and base address are those of the walk, and the current object is the same before and after |
| ObjectChecks.Checker.DecodeValidateMessages | h5inspect/src/h5checker.c:7647-8042 | the messages are checked in order, and the count returned is that of the walk, external-file messages setting it |
| ObjectChecks.Checker.CheckMessage | h5inspect/src/h5checker.c:7704-8022 | each kind of message makes the calls and counts the failures that the walk has for it |
| ObjectChecks.Checker.Descend | h5inspect/src/h5checker.c:7888-7898 | one subgroup with the name of the link is added, the header is checked with it as current object, and the old one is restored |
| ObjectChecks.Checker.CheckBTree | h5inspect/src/h5checker.c:6800-7004 | descends to every child of a node and fails exactly when the node or a child does |
| ObjectChecks.Checker.CheckSym | h5inspect/src/h5checker.c:6613-6794 | descends along every entry that is no symbolic link, and fails exactly when the node or one of them does |
| ObjectChecks.Checker.CheckBTree2 | h5inspect/src/h5checkerV2_0.c:1054-1091 | checks the headers of all records of a node, and then its children up to the first that fails |
| ObjectChecks.CheckFile | h5inspect/src/h5checker.c:8436-8934 | if the walk ends: no address is expanded twice or without being reachable, a failure has a cause, without dense storage all is expanded, and where no failure can get lost the check succeeds exactly when nothing reachable is wrong |
| ObjectFlaws.FailureForgotten | h5inspect/src/h5checker.c:7712 | a file with a reachable bad header that passes |
| ObjectFlaws.FailuresCancel | h5inspect/src/h5checker.c:7712 | a file with a bad heap and a reachable bad header that passes |
| ObjectFlaws.OwnBase | h5inspect/src/h5checker.c:8904-8909 | without dense storage below it, the base address recorded for an object is that of its own header |
| ObjectFlaws.BaseOverwritten | h5inspect/src/h5checker.c:7460-7467 | a group of which the recorded base address is that of a member |
| ObjectFlaws.LeftOut | h5inspect/src/h5checkerV2_0.c:1070-1075 | a file with a reachable header that is not expanded, because a link in an earlier node leads to a bad one |
| ObjectFlaws.CycleNeverEnds | h5inspect/src/h5checker.c:6964-6968 | a call for a B-tree node on a cycle never returns |
| ObjectFlaws.OwnChildNeverEnds | h5inspect/src/h5checker.c:6964-6968 | a file on which the check never ends |

## Left out

* Shell, tar, mount and service commands: a disk is any value, and performing a call is a deterministic function on
  the disk of its server. That sync calls leave the disk alone is assumed where pruning relies on it.
- Replays.Cluster.PerformCrash: after a check that passes, the disks are taken to be as replay left them: neither the
  checker nor the restart of the file system (`ParaCrash/pfs_check:56-127`) writes to them.
* Timestamps are distinct real numbers and every pair of send and receive goes forward in time; the sources sort by
  timestamp and rely on this.
* The MPI reorderings (`ParaCrash/pfs_csg.py:99-103`), HDF5-based pruning (118-126) and exploration order.
* networkx and itertools: transitive closure, transitive reduction, products and combinations are taken by definition.
* The frontier tuple and its mask are one map from server to call.
* The whitelist parameter of restore and emulate, which only one file system uses.
* uthash: hash functions, Bloom filter, out-of-memory paths, in-order insertion and HASH_SELECT. Adding allocates the
  handle, so that its hash value is fixed from the start. The mask and the shift are written as recursions over the
  low bits; unsigned wrap-around of counters is not modelled.
* Recorder: interception, the text and zlib modes, metadata files. Times are real numbers, and records whose ticks do
  not fit 32 bits are outside the model, as the conversion is undefined there.
* The search for a reference is commented out in the source; any slot it could come up with is a parameter.
* `RecordStreams.ReadRecords`: where the original would loop forever, read past the content or overrun its argument
  slots, the model returns None.
- DiffCodec.GetDiffRecord: requires strings in lists of equal length, since the source compares with strcmp, which has
  no meaning for NULL; likewise a record with a NULL argument is neither reference nor stored against one.
- PosixTraces.StepExact: `/dev/null` is a regular file here that keeps what is written to it, on both sides of the
  comparison; a device that discards its input is not part of the model.
- PosixTraces.Workload.CreateSyscalls: the calls of all processes are kept in the order of the lines, which is that of
  their timestamps; sorting them by timestamp afterwards is left out.
* PosixTraces: truncation, duplication of descriptors, renaming, partial writes and O_APPEND. Names in
  the ignore list are taken to exist.
* SendRecv: service names are distinct; calls other than sends and receives pass through unchanged.
* Striping: offsets are exact integers, where the source divides as floating point.
* ObjectMaps: reading the JSON log; the ranges come sorted, as the source sorts them.
* h5inspect: decoding of messages, checksums, free lists (taken to end) and continuation chunks, of which the model
  keeps what a header's messages lead to and whether its own checks and those of its heaps and nodes go well;
  committed messages that re-enter a header with a result pointer; external links; of the logger, all but subgroups
  and base addresses.
* h5inspect: version 2 B-trees are trees, since the depth in their header bounds the descent; failure counts do not
  overflow.
- ObjectChecks.CheckFile: requires that the walk ends, which `ObjectEnds.EndsIffNoLoop` characterises.
