# Verified models of the Jancy runtime

This project models four pieces of the Jancy runtime and editor and proves what they are for.

* **The destruct graph** (`BoxHeader`, `DestructGraph`, `Tarjan`, `TarjanSearch`, `TarjanRuns`, `CountSort`,
  `DestructOrder`, `DestructPass`, `DestructChoice`, `Reachability`, `SeqSlices`). When the garbage collector finds dead
  objects with destructors, it numbers them as nodes of a graph, lets a mark pass add nodes and edges in any order,
  buckets the edges by source, runs an iterative Tarjan search for strongly connected components from the candidates,
  and lists the candidates for destruction. `DestructGraph` and its nodes and boxes are classes; each loop is proved
  against a value state machine (`TarjanSteps.Step`) whose invariant is kept by every iteration. Reachability is a
  separate relation: first over the multiset of stored edges, then over the references that the marking reports. The
  end result is `DestructPass.SortDestructibles`: for any objects and any marking, an owner is listed before what it
  owns, loops come as blocks, unrelated candidates come newest first, nothing is lost, and of the flags of a box only
  the marks change, by exactly those that the marking sets.
* **The call-site protocol** (`CallSites`, `CallSiteRuns`, `CallSiteThreads`, `NoCollectRegions`). A thread enters
  Jancy code through call sites of possibly different, interleaved runtimes; each has one storage per thread and
  runtime, a recovery snapshot, and the frame that a throw jumps to, which the try scopes of compiled code replace
  while they are open. The runtime, storage, call site, the local variables of the opening macro and a try scope are
  classes; their methods are proved against functions on values (`Begin`, `Apply`, `End`), about which the invariants
  and the theorems over whole runs are stated. Other modules say what whole runs leave behind, let any number of
  threads interleave the single steps under each runtime's lock, and follow the heap's count of threads in a
  no-collect region over all runs of all threads.
* **Priming a class object** (`PrimeClass`, `BoxHeader`). Memory is an array of bytes, each of which knows which
  field it is a part of, so that overlapping writes would show. The headers of the object, of its bases and of the
  objects embedded in it are written by mutually recursive methods, and what is in memory afterwards is stated
  separately, for every interface that can be reached in the object.
* **Brace matching** (`BraceMatch`). The forward and the backward scan are proved to find exactly the brace that is
  separated from the first one by properly nested text; from that the scans undo each other, and what the editor shows is
  stated by the characters around the caret.

Six properties one might expect need a condition. The project states each condition exactly and gives an input that
misses it:

* A throw lands in the thread's innermost call site if and only if no try scope of compiled code is open in it and it has
  not restored its frame yet (`ThrowLandsInnermost`). `ThrowLands` says where it lands in every case. With a try scope
  open that is the scope's frame (`ThrowInTryIsCaught` gives a run). After the restore it can even pass over a live call
  site of another runtime (`ThrowAfterRestoreEscapes`): with call sites of A, B and A, a throw in the innermost one after
  its frame was restored lands in the outermost one, which is then not the thread's current call site, as its end asserts
  (`src/jnc_rt/jnc_rt_Runtime.cpp:148`). The lemma gives the run, from a thread in no runtime, for all choices.
* A call site without open try scopes meets the assertions at its end (`src/jnc_rt/jnc_rt_Runtime.cpp:150-185`) if and
  only if its levels and frames are balanced, or it is ended by a throw that reached it and is out of wait regions
  (`MayEndMeetsAsserts`). They fail where a script itself catches a throw out of a no-collect region
  (`CaughtThrowFailsAsserts`). Recovery does not need them: it is proved for unbalanced ends too.
* The heap's count of threads in a no-collect region is the number of those threads if and only if no call site has
  ended with a positive level after being opened at level 0 (`CountIsThreadsInside`), over all interleavings of all
  threads. A throw out of a region that reaches the call site is such a run (`ThrownFromRegionLeaks`): the end puts the
  saved level back (`src/jnc_rt/jnc_rt_Runtime.cpp:170`) before the thread is unregistered, so that the test meant for
  this case (`src/jnc_rt/jnc_rt_GcHeap.cpp:881`) finds 0. From then on the count stays positive and holds off collections
  (`CollectionStaysBlocked`).
* The 32-bit root offset of a box leads back to the root if and only if the distance fits in 32 bits
  (`RootOffsetLeadsToRoot`); an embedded box at a distance of 2^32 takes itself for the root (`RootOffsetWraps`), and
  `EmbeddedBoxLosesRoot` has a class with such a box.
* Newest first (the comment at `src/jnc_rt/jnc_rt_DestructGraph.cpp:133`) is decided by the first candidate that reaches
  an object, not by the object's own position: two candidates with different first holders are listed by these, the
  later holder's first, and only so (`FirstHolderDecides`). With candidates 0, 1, 2 and one reference, from 0 to 2, the
  older 1 is listed before the newer 2 (`NewerIsListedLater`). For candidates that no earlier one reaches, this is
  newest first (`NewestFirst`).
* The references alone do not settle the order of every two candidates. `OrderSettled` says exactly what they do settle:
  one candidate is listed before the other for every order of the edges within the nodes, which the counting sort does not
  promise, if and only if its first holder is the later one, or with the same first holder it reaches the other and is
  either not reached back or the newer. Otherwise the order is open: `EitherOrderArises` gives an order of the same edges
  for which the search, run from its start to its end, lists one of them first, and by symmetry one for the other. A run
  is determined by the table (`SearchDetermined`), so it is the order of the edges that decides. `OrderLeftOpen` is the
  smallest case on references.

The comment at `src/jnc_rt/jnc_rt_DestructGraph.cpp:207` calls the order within a loop unspecified. The code fixes it,
and so does the model: descending. The whole output is determined by the component numbers (`EmitOrderUnique`), if not by
the references alone.

Check the project with `dafny verify dfyconfig.toml`.

## Model

| member | source | states |
|---|---|---|
| `DestructPass.SortDestructibles` | src/jnc_rt/jnc_rt_GcHeap.cpp:1459-1465 | for any distinct candidates and any marking: appends a permutation of them to the output, whose old entries stay. With one box holding another if some step of the marking reports that reference: a candidate that leads to another along such steps (through whatever objects) and is not led back to comes first; one that none of the first k candidates leads to comes before one that some of them does, for every k; loops are blocks, newest first. The flags of every box are the old ones plus those that some step of the marking sets on it, and no node is left |
| `DestructPass.RefsAreHeld` | src/jnc_rt/jnc_rt_DestructGraph.cpp:75-80 | the references of the whole marking are those its steps report: with the parent given, or from the box made current last, each candidate's part starting with the candidate and the mark cycle with what was current last; self-references are left out |
| `DestructPass.MarksAreMarked` | src/jnc_rt/jnc_rt_GcHeap.cpp:1047-1062 | the marks of the whole marking on a box are those that some step sets on it |
| `DestructPass.RefReachIsHoldsOn` | src/jnc_rt/jnc_rt_DestructGraph.h:129-160 | reaching along references is being led to by a chain of reporting steps |
| `DestructGraphs.RefsAreReported` | src/jnc_rt/jnc_rt_DestructGraph.h:129-160 | a marking yields a reference from x to another box y if and only if some step adds an edge from x to y, or an edge to y while x is the box made current last |
| `DestructGraphs.MarksAreSet` | src/jnc_rt/jnc_rt_GcHeap.cpp:1047-1062 | a marking yields a mark on a box if and only if some step sets it there |
| `DestructPass.ReachIsRefReach` | src/jnc_rt/jnc_rt_DestructGraph.h:139-146 | a node reaches another along the stored edges if and only if its box reaches the other's along the reported references: skipping self-references loses nothing |
| `DestructPass.OrderMeans` | src/jnc_rt/jnc_rt_DestructGraph.cpp:206-257 | the order on node numbers, read as an order on boxes: owners first, by first holder, loops together |
| `DestructPass.NewestFirstUnlessHeld` | src/jnc_rt/jnc_rt_DestructGraph.cpp:133-141 | on boxes and references: the later of two candidates comes first unless a candidate up to the earlier one holds on to it |
| `DestructPass.OrderLeftOpen` | src/jnc_rt/jnc_rt_DestructGraph.cpp:206-257 | with references from the first of three candidates to the other two, either order of these meets what is proved of the output in terms of references; that the search yields both is `EitherOrderArises` |
| `DestructChoices.OrderSettled` | src/jnc_rt/jnc_rt_DestructGraph.cpp:119-257 | for any two candidates: one is listed before the other in every output of the search over every order of the edges within the nodes, if and only if its first holder is later, or the same and it reaches the other and is not reached back or is newer |
| `DestructChoices.EitherOrderArises` | src/jnc_rt/jnc_rt_DestructGraph.cpp:82-204 | for any two candidates with the same first holder of which neither reaches the other: a table with the same edges, ordered differently within the nodes, whose search from start to end comes to a state for which every emission lists the second first; by symmetry there is one for the first |
| `DestructChoices.SearchAhead` | src/jnc_rt/jnc_rt_DestructGraph.cpp:136-200 | where the first edges of a way of unvisited nodes lead from one to the next, the search run from start to end numbers the end of the way before any node off the way that neither it nor an earlier seed reaches |
| `DestructChoices.StepKeepsAhead` | src/jnc_rt/jnc_rt_DestructGraph.cpp:151-200 | a visited node keeps the lower component number against any unvisited node it does not reach |
| `DestructPass.ReorderedConserves` | src/jnc_rt/jnc_rt_DestructGraph.cpp:210-256 | listing candidates by a permutation keeps the multiset of interfaces |
| `DestructGraphs.DestructGraph.GetNode` | src/jnc_rt/jnc_rt_DestructGraph.cpp:22-42 | returns the one node of the box, old or appended; every known box keeps exactly one of its two flags and resolves to the node at its position, below and above the index limit; other flags stay |
| `DestructGraphs.DestructGraph.AppendNode` | src/jnc_rt/jnc_rt_DestructGraph.cpp:29-41 | the new node stands at its own position, and box flags, index field and map agree with the node array for all nodes |
| `DestructGraphs.DestructGraph.RegisterCandidates` | src/jnc_rt/jnc_rt_DestructGraph.cpp:51-73 | node k is the k-th candidate's, flagged by index below the limit and through the map above |
| `DestructGraphs.DestructGraph.AddNodeEdge` | src/jnc_rt/jnc_rt_DestructGraph.h:139-146 | the edge array mirrors the references reported so far, self-references left out |
| `DestructGraphs.DestructGraph.AddEdge` | src/jnc_rt/jnc_rt_DestructGraph.h:151-160 | the same for a box that may not have a node yet; old nodes keep their positions |
| `DestructGraphs.DestructGraph.RunMarks` | src/jnc_rt/jnc_rt_GcHeap.cpp:1000-1100 | any sequence of marks, node look-ups, edge reports and changes of the current node keeps the bijection of boxes and nodes, mirrors exactly the references reported and adds to each box exactly the marks set on it (by positions: `RefsAreReported`, `MarksAreSet`) |
| `DestructGraphs.DestructGraph.Build` | src/jnc_rt/jnc_rt_DestructGraph.cpp:44-98 | afterwards the candidates are the first nodes, boxes and nodes are in bijection, the edges mirror the whole marking, every box has gained exactly the marks it sets, and the sorted edges with their bases are a valid table of the same multiset |
| `DestructGraphs.DestructGraph.SortEdges` | src/jnc_rt/jnc_rt_DestructGraph.cpp:82-96 | the counting sort plus the sentinel gives a valid edge table for every node, the last one included, and conserves the edges |
| `DestructGraphs.SliceIsOutEdges` | src/jnc_rt/jnc_rt_DestructGraph.cpp:82-97 | slice k of the table holds each edge with source k as often as it was added, and no other |
| `CountSorting.CountSort` | src/jnc_rt/jnc_rt_DestructGraph.cpp:88-94 | what the build relies on: destination sorted into slices by key, bases are the starts of the slices, the multiset is kept |
| `DestructGraphs.DestructGraph.Tarjan` | src/jnc_rt/jnc_rt_DestructGraph.cpp:119-204 | the fields end as the run of the state machine from its start does, with the iterations of the inner loop as its steps; the search result below holds of the fields of graph and nodes, and the inner loop runs once per visited node plus once per edge leaving a visited node, summed over all roots |
| `DestructGraphs.DestructGraph.SearchSeed` | src/jnc_rt/jnc_rt_DestructGraph.cpp:136-200 | one root: the fields end as the state machine does that visits the root and steps until no frame is left, with one step per iteration; the search invariant holds again |
| `DestructGraphs.DestructGraph.VisitNode` | src/jnc_rt/jnc_rt_DestructGraph.cpp:140-149 | numbering and pushing a node is the visit of the state machine |
| `DestructGraphs.DestructGraph.FollowEdge` | src/jnc_rt/jnc_rt_DestructGraph.cpp:155-176 | advancing over one edge is a step of the state machine: lowered lowlink only for nodes still on the stack, push otherwise |
| `DestructGraphs.DestructGraph.PopComponent` | src/jnc_rt/jnc_rt_DestructGraph.cpp:180-192 | popping down to the component's first node is the state machine's close |
| `DestructGraphs.DestructGraph.FinishNode` | src/jnc_rt/jnc_rt_DestructGraph.cpp:178-199 | closing, dropping the frame and propagating the lowlink is a step of the state machine |
| `TarjanSteps.StepKeepsInv` | src/jnc_rt/jnc_rt_DestructGraph.cpp:151-200 | every iteration keeps: the stack holds exactly the visited nodes without a component in order of index, the frames form a path on it, the nodes between two frames are mutually reachable with the lower, each lowlink is the index of a reachable stack node, components closed so far are closed under edges, numbered in reverse topological order and sliced |
| `TarjanSteps.VisitKeepsInv` | src/jnc_rt/jnc_rt_DestructGraph.cpp:167-175 | entering a node keeps that invariant |
| `TarjanSteps.SeenEdgeKeepsInv` | src/jnc_rt/jnc_rt_DestructGraph.cpp:160-165 | an edge to a node already visited keeps it |
| `TarjanSteps.FinishInnerKeepsInv` | src/jnc_rt/jnc_rt_DestructGraph.cpp:194-199 | leaving a node that is not the first of its component keeps it |
| `TarjanSteps.FinishRootKeepsInv` | src/jnc_rt/jnc_rt_DestructGraph.cpp:180-199 | closing a component and leaving its first node keeps it |
| `TarjanSteps.ReachesParent` | src/jnc_rt/jnc_rt_DestructGraph.cpp:180-198 | a finished node whose lowlink is below its index reaches its parent in the search |
| `TarjanSteps.RootComponents` | src/jnc_rt/jnc_rt_DestructGraph.cpp:184-191 | what is popped is exactly a class of mutual reachability, against all components closed before |
| `TarjanSteps.NumberedClosed` | src/jnc_rt/jnc_rt_DestructGraph.cpp:184-191 | nothing leads out of the nodes that have a component |
| `TarjanSteps.AppendSlice` | src/jnc_rt/jnc_rt_DestructGraph.cpp:181-187 | the slices cut by the bases stay a partition of the numbered nodes when a component is appended |
| `TarjanSteps.ClosedChildKeepsLow` | src/jnc_rt/jnc_rt_DestructGraph.cpp:196-199 | the unconditional propagation never lowers the parent when the child's component was just popped |
| `TarjanSearch.SearchEnds` | src/jnc_rt/jnc_rt_DestructGraph.cpp:119-204 | at the end: visited are exactly the nodes reachable from the candidates, same number if and only if mutually reachable, no path leads to a higher number, what only later seeds reach is numbered higher, slices partition the visited nodes |
| `TarjanSearch.PathNeverRises` | src/jnc_rt/jnc_rt_DestructGraph.cpp:178-203 | along any path from a numbered node component numbers never rise |
| `TarjanSearch.StepKeepsSeeding` | src/jnc_rt/jnc_rt_DestructGraph.cpp:133-201 | during the search from a seed: only what the seeds so far reach is visited, and what earlier seeds do not reach is numbered higher than they are |
| `TarjanSearch.StepWork` | src/jnc_rt/jnc_rt_DestructGraph.cpp:151-200 | each iteration does one unit of the work that visiting nodes creates |
| `TarjanSearch.WorkIsNodesAndEdges` | src/jnc_rt/jnc_rt_DestructGraph.cpp:135-201 | that work is the number of visited nodes plus the number of edges that leave them |
| `TarjanSearch.StepRuns` | src/jnc_rt/jnc_rt_DestructGraph.cpp:151-200 | a run is never longer than nodes plus edges |
| `TarjanRuns.SearchDetermined` | src/jnc_rt/jnc_rt_DestructGraph.cpp:119-204 | the table, with its order of edges, determines the final state and the number of iterations |
| `TarjanRuns.SearchReaches` | src/jnc_rt/jnc_rt_DestructGraph.cpp:119-204 | the search of any valid table comes to an end |
| `TarjanRuns.ReachedSearched` | src/jnc_rt/jnc_rt_DestructGraph.cpp:119-204 | wherever the search ends, the search result holds, after one iteration per visited node and one per edge leaving a visited node |
| `DestructGraphs.DestructGraph.Compact` | src/jnc_rt/jnc_rt_DestructGraph.cpp:219-228 | the candidates of a slice end up at its front in their order; entries still to be read are not overwritten and earlier slices stay |
| `DestructGraphs.DestructGraph.SortComponent` | src/jnc_rt/jnc_rt_DestructGraph.cpp:216-252 | the front of the slice is the component's candidates, each once, in descending order |
| `DestructGraphs.DestructGraph.Emit` | src/jnc_rt/jnc_rt_DestructGraph.cpp:209-257 | appends exactly the main interfaces of the candidates in emission order behind an unchanged prefix |
| `DestructOrder.OwnerBeforeOwned` | src/jnc_rt/jnc_rt_DestructGraph.cpp:206-257 | a candidate that reaches another and is not reached back is emitted first, also when the path runs through nodes that are no candidates |
| `DestructOrder.LaterHeldFirst` | src/jnc_rt/jnc_rt_DestructGraph.cpp:133-141 | a candidate that none of the first k candidates reaches is emitted before one that some of them reaches |
| `DestructOrder.FirstHolderDecides` | src/jnc_rt/jnc_rt_DestructGraph.cpp:133-141 | candidates with different first holders: one is emitted before the other if and only if its first holder is the later one |
| `DestructOrder.NewestFirst` | src/jnc_rt/jnc_rt_DestructGraph.cpp:133-141 | the later of two candidates is emitted first unless a candidate up to the earlier one reaches it |
| `DestructOrder.NewerIsListedLater` | src/jnc_rt/jnc_rt_DestructGraph.cpp:133-141 | with candidates 0, 1, 2 and the one edge from 0 to 2, the older 1 is emitted before the newer 2, and not after |
| `DestructOrder.UnrelatedReversed` | src/jnc_rt/jnc_rt_DestructGraph.cpp:215-238 | without edges the output is the reverse of the input |
| `DestructOrder.LoopIsBlock` | src/jnc_rt/jnc_rt_DestructGraph.cpp:241-252 | the candidates of a loop are emitted in descending order, with only candidates of that loop between them |
| `DestructOrder.EmitOrderUnique` | src/jnc_rt/jnc_rt_DestructGraph.cpp:206-257 | the component numbers determine the output completely |
| `DestructOrder.EmitOrderExists` | src/jnc_rt/jnc_rt_DestructGraph.cpp:206-257 | for any component numbers there is such an output |
| `DestructOrder.SliceListsComponent` | src/jnc_rt/jnc_rt_DestructGraph.cpp:216-228 | the candidates found in a slice are all candidates of that component, each once |
| `DestructGraphs.DestructGraph.Cleanup` | src/jnc_rt/jnc_rt_DestructGraph.cpp:100-115 | no box of the heap keeps either flag, other flags stay, nodes and map are gone |
| `CallSites.CallSiteLeavesNoTrace` | src/jnc_rt/jnc_rt_Runtime.cpp:146-198 | whatever happens between opening a call site and its end (throws with raised levels and leftover frames, try scopes opened, closed and jumped to, code after the throw or the restore, nested call sites of any runtimes, ends that fail the assertions), the thread's storage, levels, shadow stacks and frames are then exactly as before |
| `CallSites.RunUnwinds` | src/jnc_rt/jnc_rt_Runtime.cpp:113-125 | no event above the first d call sites changes what those will be taken back to |
| `CallSites.EndUnwinds` | src/jnc_rt/jnc_rt_Runtime.cpp:168-198 | ending a call site takes the thread to the state its snapshot was taken in |
| `CallSites.BeginUnwinds` | src/jnc_rt/jnc_rt_Runtime.cpp:87-144 | the snapshot that opening takes undoes the opening |
| `CallSites.BeginKeepsInv` | src/jnc_rt/jnc_rt_Runtime.cpp:87-144 | opening keeps: one storage per runtime shared by its call sites, nest levels count earlier call sites of the runtime, storage accounted for by the snapshots, dynamic frames never directly on dynamic frames |
| `CallSites.ApplyKeepsInv` | include/jnc_CallSite.h:43-79 | compiled code, before and after a throw or a restore, its stores to the frame slot when a try scope opens, closes or catches, throws and restores keep it |
| `CallSites.EndKeepsInv` | include/jnc_CallSite.h:75-79 | the end of a call site keeps it |
| `CallSites.ThrowLandsInnermost` | src/jnc_rt/jnc_rt_Runtime.cpp:216-233 | a throw lands in the thread's innermost call site if and only if no try scope is open in it and it has not restored its frame |
| `CallSites.ThrowLands` | src/jnc_rt/jnc_rt_Runtime.cpp:216-233 | where a throw lands in every case: the last open try scope, the call site, then the last frame still set further out on the same storage, or the external one |
| `CallSites.ThrowInTryIsCaught` | src/jnc_ct/jnc_ct_ControlFlowMgr/jnc_ct_ControlFlowMgr_Eh.cpp:101-151 | a run whose body has a try scope open: the call site has not restored its frame, and a throw lands in the scope's frame |
| `CallSites.CatchSetsFrameBelow` | src/jnc_ct/jnc_ct_ControlFlowMgr/jnc_ct_ControlFlowMgr_Eh.cpp:700-716 | after a caught throw the slot holds the frame of the try scope below, or of the call site, and the shadow stack has lost frames but none that the call site started with; the levels stay |
| `CallSiteRuns.TryScopeUndone` | src/jnc_ct/jnc_ct_ControlFlowMgr/jnc_ct_ControlFlowMgr_Eh.cpp:690-716 | after any run during which a try scope stays open (nested call sites, throws caught in inner scopes, frames left over), a throw caught by it leaves call sites, frame slots, shadow stacks and all other storage as they were before it was opened, only the levels of its own storage may differ; leaving it normally does the same but for the shadow stack |
| `CallSiteRuns.FlagsTellThrows` | include/jnc_CallSite.h:43-79 | over any run that does not end it, a call site has been thrown to, or has restored its frame, if and only if one of the events was a throw, or a restore, while it was the innermost one |
| `CallSiteRuns.NestedIsNotSeen` | src/jnc_rt/jnc_rt_Runtime.cpp:113-198 | over any run, what nested call sites of any runtimes will be taken back to is what the outer call site's own steps alone make of the thread |
| `CallSiteRuns.LevelsAreNet` | src/jnc_rt/jnc_rt_GcHeap.cpp:888-977 | by the steps of one call site its storage's levels change by what is raised less what is lowered, also past a caught throw, and without one the shadow stack by the frames pushed less those popped |
| `CallSites.ThrowAfterRestoreEscapes` | include/jnc_CallSite.h:57-64 | for any two runtimes and distinct call sites and frames: opening A, B and A on a thread that is in no runtime and restoring the last frame is a run after which a throw lands in the first call site, which is then not the current one |
| `CallSites.FrameOfRuntime` | src/jnc_rt/jnc_rt_Runtime.cpp:200-214 | the frame in a storage is that of the runtime's innermost call site with a try scope open, the last one's, or with its own frame still set, whatever call sites of other runtimes lie above |
| `CallSites.RestoreFindsOwnFrame` | include/jnc_CallSite.h:57-64 | the first restore of a call site finds its own frame, as asserted there, if and only if no try scope is open in it |
| `CallSites.MayEndMeetsAsserts` | src/jnc_rt/jnc_rt_Runtime.cpp:148-185 | a call site with no try scope open meets the assertions on levels, shadow stack and outermost snapshot if and only if its body left levels and frames balanced, or was left by a throw outside wait regions |
| `CallSites.CaughtThrowFailsAsserts` | src/jnc_rt/jnc_rt_Runtime.cpp:152-155 | a run in which a throw out of a no-collect region is caught in a try scope of the body, after which the end of the call site fails the assertion on the level |
| `CallSites.StorageFreedWithOutermost` | src/jnc_rt/jnc_rt_Runtime.cpp:176-197 | the storage is freed exactly with the outermost call site of its runtime |
| `CallSites.ShadowNotEmpty` | src/jnc_rt/jnc_rt_Runtime.cpp:118-125 | a nested call site never finds an empty shadow stack |
| `CallSites.CountFromFind` | src/jnc_rt/jnc_rt_Runtime.cpp:99-115 | one more than the level of the innermost call site of the runtime is the number of its call sites |
| `CallSites.Runtime.FindCallSite` | src/jnc_rt/jnc_rt_Runtime.cpp:99-107 | the walk along the chain finds the innermost call site of this runtime, or none |
| `CallSites.Runtime.NestCallSite` | src/jnc_rt/jnc_rt_Runtime.cpp:109-125 | snapshot, level and dynamic frame of a nested call site |
| `CallSites.Runtime.CreateStorage` | src/jnc_rt/jnc_rt_Runtime.cpp:126-141 | new storage is listed, and the event stays in step with the list |
| `CallSites.Runtime.InitializeCallSite` | src/jnc_rt/jnc_rt_Runtime.cpp:87-144 | the thread changes as the value-level step says; storage is shared if the runtime is on the chain, else new and listed |
| `CallSites.Runtime.SetSjljFrame` | src/jnc_rt/jnc_rt_Runtime.cpp:200-214 | replaces and returns the frame of the current storage, or of the thread's slot outside call sites, and leaves the other alone |
| `CallSites.SetFrameReturnsLast` | src/jnc_rt/jnc_rt_Runtime.cpp:200-214 | a second call returns the frame passed to the first, inside and outside call sites, and setting back what was returned undoes the first |
| `CallSites.Runtime.DynamicThrow` | src/jnc_rt/jnc_rt_Runtime.cpp:216-233 | it jumps to the frame of the current storage, and to the one set outside any call site only if that is null |
| `CallSites.Runtime.UninitializeCallSite` | src/jnc_rt/jnc_rt_Runtime.cpp:146-198 | the thread changes as the value-level step says; storage leaves the list exactly at nest level 0 |
| `CallSites.CallSiteScope.Open` | include/jnc_CallSite.h:43-53 | initialization followed by setting the frame keeps the invariant and is the opening of the value level |
| `CallSites.CallSiteScope.RestoreSjljFrame` | include/jnc_CallSite.h:57-64 | with no try scope open, as the assertion there implies (`RestoreFindsOwnFrame`), the first call puts the previous frame back and later ones do nothing |
| `CallSites.CallSiteScope.Land` | src/jnc_rt/jnc_rt_Runtime.cpp:216-233 | with no try scope open, `dynamicThrow` in the body jumps to this call site's own frame, and landing there is the throw of the value level |
| `CallSites.CallSiteScope.Close` | include/jnc_CallSite.h:75-79 | the thread is back in the state before the opening; the result says whether the body threw |
| `CallSites.TryScope.Open` | src/jnc_ct/jnc_ct_ControlFlowMgr/jnc_ct_ControlFlowMgr_Eh.cpp:101-119 | puts the scope's frame into the slot of the current storage and keeps what was there: the opening of a try scope of the value level |
| `CallSites.TryScope.Close` | src/jnc_ct/jnc_ct_ControlFlowMgr/jnc_ct_ControlFlowMgr_Eh.cpp:614-630 | puts the frame back that was set before: the closing of the value level, with all other try scopes as they were |
| `CallSites.TryScope.Catch` | src/jnc_ct/jnc_ct_ControlFlowMgr/jnc_ct_ControlFlowMgr_Eh.cpp:690-716 | `dynamicThrow` jumps to this scope's frame; then the frame below is set and the frames above are dropped from the shadow stack (over whole runs: `TryScopeUndone`) |
| `NoCollectRegions.CountIsThreadsInside` | src/jnc_rt/jnc_rt_GcHeap.cpp:869-977 | for any threads and any order of their steps, starting from a right count: the heap's count is the number of threads in a no-collect region if and only if no call site ended at a positive level after opening at level 0, and it is at least the number of such ends |
| `NoCollectRegions.InterleavingCounts` | src/jnc_rt/jnc_rt_GcHeap.cpp:869-977 | whatever the threads do, the count exceeds the number of threads in a region by one more for each such end |
| `NoCollectRegions.CountFollowsLevel` | src/jnc_rt/jnc_rt_Runtime.cpp:168-187 | one step changes the count as it changes whether the thread is in a region, except for the one step that leaks |
| `NoCollectRegions.CollectionStaysBlocked` | src/jnc_rt/jnc_rt_GcHeap.cpp:1229-1237 | a count that is too high stays positive over every further run, so that no collection takes place |
| `NoCollectRegions.ThrownFromRegionLeaks` | src/jnc_rt/jnc_rt_Runtime.cpp:168-187 | opening a call site, entering a region, throwing and ending it leaves a thread in no runtime and a count of 1 |
| `NoCollectRegions.GcHeap.EnterNoCollectRegion` | src/jnc_rt/jnc_rt_GcHeap.cpp:937-955 | raises the level, and the count exactly if the level was 0 |
| `NoCollectRegions.GcHeap.LeaveNoCollectRegion` | src/jnc_rt/jnc_rt_GcHeap.cpp:958-978 | lowers the level, and the count exactly if the level was 1 |
| `NoCollectRegions.GcHeap.UnregisterMutatorThread` | src/jnc_rt/jnc_rt_GcHeap.cpp:872-886 | lowers the count exactly if the level it finds is positive |
| `NoCollectRegions.CollectsWithNobodyInside` | src/jnc_rt/jnc_rt_GcHeap.cpp:1229-1237 | over any steps of any threads: a collection that is asked for takes place if and only if no thread has a positive level and no call site has ended at a positive level after opening at level 0 |
| `CallSiteThreads.EventTellsNobodyInside` | src/jnc_rt/jnc_rt_Runtime.cpp:135-140 | for any threads and any interleaving of steps, whenever the lock is free the event is signalled if and only if the list is empty, that is, no thread is in the runtime |
| `CallSiteThreads.WorkerRuns` | src/jnc_rt/jnc_rt_Runtime.cpp:87-198 | in any interleaving each thread goes through a run of the call-site protocol of exactly the events started on it, in their order, less an opening it has not come to the end of |
| `CallSiteThreads.IdleWorkerRuns` | src/jnc_rt/jnc_rt_Runtime.cpp:87-198 | between two points at which it is idle, the thread's states are joined by the run of exactly those events |
| `CallSiteThreads.InterleavingKeepsInv` | src/jnc_rt/jnc_rt_Runtime.cpp:135-196 | every interleaving keeps: mutual exclusion, the event against the list at each point of the locked sections, the list against the threads' storage |
| `CallSiteThreads.AdvancedKeepsInv` | src/jnc_rt/jnc_rt_Runtime.cpp:190-196 | one step under the lock keeps it |
| `CallSiteThreads.StartedKeepsInv` | src/jnc_rt/jnc_rt_Runtime.cpp:87-144 | one step of a thread of its own keeps it |
| `CallSiteThreads.EnteredIsCallSite` | src/jnc_rt/jnc_rt_Runtime.cpp:176-197 | with no thread underway, being in a runtime is having a live call site of it |
| `ClassPriming.PrimeClass` | src/jnc_api/jnc_Runtime.cpp:611-637 | for any well-formed layout, byte by byte: the main interface has the given vtable, or the type's own if none is given; along any descent into bases and embedded objects each interface has the vtable its place asks for (for a base the entries from its index on, for an embedded object its type's own) and its box; each box has its type, the class, data and weak marks, and its distance to the root modulo 2^32; the box of an interface is the innermost one around it; all other bytes of the object are clear, and nothing outside it is written |
| `ClassPriming.PrimedInMemory` | src/jnc_api/jnc_Runtime.cpp:566-637 | the headers at the end of every descent, byte by byte |
| `ClassPriming.ClearIsOutside` | src/jnc_api/jnc_Runtime.cpp:626-634 | a byte of the object that is not clear lies in a header at the end of some descent |
| `ClassPriming.PrimeIface` | src/jnc_api/jnc_Runtime.cpp:566-609 | headers of the interface, its bases and embedded objects are all in place at the end; only headers and embedded objects were written |
| `ClassPriming.PrimedEverywhere` | src/jnc_api/jnc_Runtime.cpp:566-609 | the headers are right at the end of every path of base and field steps, with the vtable accumulated along it |
| `ClassPriming.BoxIsInnermost` | src/jnc_api/jnc_Runtime.cpp:577-608 | no box on any other path encloses the interface more tightly than the one it points to |
| `ClassPriming.FollowStaysInside` | src/jnc_api/jnc_Runtime.cpp:584-608 | every interface and box on a path lies within the region of its first step |
| `ClassPriming.RootOffsetLeadsToRoot` | src/jnc_api/jnc_Runtime.cpp:630-634 | the stored offset leads from a box back to the root if and only if the distance is below 2^32 |
| `ClassPriming.RootOffsetWraps` | src/jnc_api/jnc_Runtime.cpp:630-634 | in an object primed as its own root, the box on any path that lies 2^32 bytes behind the root stores 0, which leads to itself |
| `ClassPriming.EmbeddedBoxLosesRoot` | src/jnc_api/jnc_Runtime.cpp:595-634 | a well-formed class whose embedded object, once primed, is such a box |
| `ClassPriming.IfaceFrame` | src/jnc_api/jnc_Runtime.cpp:584-608 | priming one slot or clearing one embedded object leaves what was primed in the others |
| `ClassPriming.HeaderByteHasPlace` | src/jnc_api/jnc_Runtime.cpp:626-634 | a byte that is not cleared belongs to a header of some interface in the object |
| `BraceMatching.BracesPairUp` | src/jnc_edit/jnc_EditBase_p.cpp:114-138 | the counterpart of the counterpart is the brace itself, searched for the other way |
| `BraceMatching.ScanForward` | src/jnc_edit/jnc_EditBase_p.cpp:1498-1514 | finds the closing brace that properly nested text separates from the opening one, or there is none |
| `BraceMatching.ScanBackward` | src/jnc_edit/jnc_EditBase_p.cpp:1482-1497 | finds the opening brace that properly nested text separates from the closing one, or there is none |
| `BraceMatching.PartnersNeverCross` | src/jnc_edit/jnc_EditBase_p.cpp:1482-1514 | pairs of one kind of brace are nested or apart |
| `BraceMatching.MatchingIsAnInvolution` | src/jnc_edit/jnc_EditBase_p.cpp:1477-1514 | a match is mutual and unique in both directions, for any text and any highlighting |
| `BraceMatching.JumpingShowsTheSamePair` | src/jnc_edit/jnc_EditBase_p.cpp:1462-1526 | with the caret moved in front of the matching brace the same two braces are shown, swapped |
| `BraceMatching.BalancedIsNested` | src/jnc_edit/jnc_EditBase_p.cpp:1482-1514 | the level that the scans count comes back to 0 without falling below if and only if the text between is properly nested: plain characters, and pairs of braces around nested text; highlighted braces are plain |
| `BraceMatching.ShownArePartners` | src/jnc_edit/jnc_EditBase_p.cpp:1462-1526 | for round, square and curly braces by their characters: with the caret in front of a brace in its line, or right behind one with no brace as next character, that brace and its partner are shown, and nothing else ever |
| `BraceMatching.EditBasePrivate.MatchBraces` | src/jnc_edit/jnc_EditBase_p.cpp:1449-1527 | shows the brace at the caret and its partner, or nothing if there is a selection, no brace, a highlighted one or no partner; asks for an update exactly when something was or is shown |

## Left out

The destruct graph:

- The mark pass itself (`markClass`, `markData`, `runMarkCycle`): it is an arbitrary sequence of marks, node look-ups,
  edge reports and changes of the current node, so the results hold for whatever it reports; that it reports every
  reference of the heap, and marks every candidate, is not shown.
- Collecting the candidates, running the destructors, sweeping, handshakes and guard pages.
- The library containers: the hash table is a map, `sl::Array` a sequence, `std::sort` any function that returns the
  descending permutation. The two loops of `build` that register candidates below and above the index limit share one
  member, which branches on the same limit.
- CountSorting.CountSort: `sl::countSort` is not part of this repository; the model is a counting sort with the contract
  that `build` relies on, and it does not promise stability: no property proved here depends on it.
- The stale index field of a box after `cleanup`, which the source calls non-essential, the memory of the nodes, and
  trace output.

Call sites:

- `setjmp` and `longjmp`, signals and operating-system slots: a throw is a jump to the recorded frame, a slot is a field
  of the thread. What runs inside a call site, in the body or after it, is assumed to pop only frames above those it or
  its innermost try scope started with, to lower only levels that were raised, to close the try scopes it opened before it
  restores the frame or ends, and not to throw from a wait region; the last is what the source asserts at
  `src/jnc_rt/jnc_rt_Runtime.cpp:150`.
- CallSites.CallSiteScope.Close: asks for a call site that is left balanced or by a throw, which is what the source asserts;
  the runs of the value level end call sites without that.
- The generation of code for try, catch, finally and disposable scopes: a try scope is what it stores at run time, the
  frame, the one set before and the top of the shadow stack, and its landing pad closes it. Frames of several scopes of one
  function are separate objects here, not elements of one array.
- CallSites.ThrowLandsInnermost: a throw is described by where it lands; one that happens after the restore with no try
  scope open ends the model's run, because the source is then outside its own assertions (`ThrowAfterRestoreEscapes`).
- The heap's count of threads that wait, whose levels a throw may not leave raised; the collections and the reset of the
  counts at shutdown; the choice to collect when a region is left, which tests the same count.
- Locks are modelled on values in `CallSiteThreads`, one visible step at a time; the class methods of `CallSites` run
  without interference. The list of storage is a sequence there and a set in `CallSiteThreads`.
- Startup, shutdown, abort, the timed waits for the event, and the registration of mutator threads with the collector.
- The thread-local variables of modules, which share the storage's memory.

Priming:

- Computing class layouts: what is required of a layout is that bases and embedded objects lie inside the interface,
  apart from each other and behind its header, which only the first base may share, at vtable index 0
  (`src/jnc_ct/jnc_ct_TypeMgr/jnc_ct_ClassType.cpp:240-252`). Field sizes are those of 64-bit targets.
- Bytes carry the field they belong to instead of numbers, so the encoding of pointers and bit fields is not modelled.
- The assertions that base and field types are classes: the layout holds nothing else.

Brace matching:

- The rest of the editor. Highlighted text is a predicate on positions, and the line that limits the look at the
  neighbouring characters is given with the caret; the two highlighted cursors are the positions they select.

Elsewhere: the compiler, the forwarding functions of the API, strings, formatting and variants would only add members
that say nothing beyond their bodies.
