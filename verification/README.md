# Verification of the core of chap

chap reads a core file, reconstructs the heap allocations of the process, builds the graph of references
between them, and decides which are leaked.  This project models the parts of chap whose correctness is least
obvious and proves what they promise.  Run `dafny verify dfyconfig.toml` to check it.

## What is modelled

* **Allocation directory** (`Directory*.dfy`).  Allocations are offered in order of
  address; a stack of open intervals decides which ones cross an accepted one and are dropped.  Nesting is filed by
  levels, one wrapper at a time, with a cascade that carries displaced wrappers upward.  Lookup is one binary search
  over all allocations and one per level.  Proved: the accepted allocations are laminar, exactly the crossing
  offers are dropped, each level holds exactly the wrappers of its nesting height if and only if no offer was of a
  certain empty kind, and likewise for the flags; lookup finds the innermost allocation or reports exactly that there
  is none.
* **Merging finders** (`FinderMerge.dfy`).  Up to four finders, each in order of address, are merged by one, two or
  many finders at a time, the last with a hand-written heap.  Proved: every item is consumed exactly once and in one
  global order, whichever merge is used and however it hands over to another.
* **Reference graph** (`GraphEdges.dfy`, `EdgeSearch.dfy`).  Two compressed edge tables, built in a forward counting
  pass and a backward filling pass, are proved to be each other's transpose; binary searches over their rows are exact.
* **Facts about edges and tags** (`EdgeTags.dfy`, `TagRuns.dfy`).  One boolean per edge, stored under both numberings,
  denotes one relation; tags only get stronger, and replacing one withdraws exactly what it had led to.  After any run an
  allocation has the first strong tag that it was given, or else the first tag.
* **Leak analysis** (`Marking.dfy`, `AnchorReports.dfy`, `AnchorWalk.dfy`, `AnchorChains.dfy`).  Breadth-first marking per
  kind of anchor point stores shortest distances, in a store that widens itself; leaked means unreachable from every anchor
  point.  A backward search with an explicit stack explains why an allocation is anchored: it reports one chain from each
  anchor point that it follows, and it leaves out only what is no closer than something that it followed.
* **Set extension** (`Extended*.dfy`, `RuleGroups.dfy`, `AllocationSet.dfy`).  A rule-driven
  walk with an explicit stack, on which exhausted frames are never pushed, makes the visits of its recursive definition
  in the same order.  Each visit is recorded with the state in which it is made: whatever the rules of that state refer
  to and accept is visited in the end, nothing is visited but the members and what a rule refers to from an earlier visit,
  and each visit is followed by the first one that it leads to.  Rules are grouped by state with a stable counting sort.
* **C++ type derivation** (`TypeInfo.dfy`).  A worklist computes derived types and the signatures used for a type or a type
  derived from it, and leaves something over exactly when derivation has a cycle.
* **Free list check of libc malloc** (`CorruptionChecker.dfy`, `CorruptionReports.dfy`).  The walk along a doubly linked
  list has no guard against cycles; it ends because nodes it passes have agreeing back pointers and hence differ.  Each
  kind of report is made exactly for what it says of memory, of the allocations and of the arenas.
* **Ranges, partition, readers** (`Range*.dfy`, `Partition*.dfy`, `VirtualMemoryPartition.dfy`, `AddressMap.dfy`,
  `ContiguousImage.dfy`).  A row of
  ranges keyed by limit refines a plain mapping of addresses to values; the partition of memory by permission conserves
  addresses in every run; the cached readers answer as uncached ones would, whatever was read before.

`Basics.dfy` holds what several of these use.

Where the source updates fields in place, a class does so here, and its methods are proved equal to functions on
the whole state; the properties are lemmas about those functions.  Memory contents, signature checks, rule filters and
the arena of an address are parameters.  Addresses are mathematical integers except where a row below says otherwise:
the free list check and the reader wrap as unsigned addresses do.

## What was found

* An empty allocation can put a wrapper on a level above its nesting height, where it stays.  One offer does so exactly
  if it is empty, starts where the allocation starts that it turns into a wrapper, and a wrapper that the cascade
  displaces ends there too (`ExactStaysIff`); the levels of a directory are exact if and only if no offer was like that
  (`LevelsExactIff`, and `LevelsNeedPositiveSizes` has an input).  Lookup is right even then.
* An empty allocation at the end of another one marks that as a wrapper although nothing lies in it.  The flags are exact
  if and only if no offer was empty and started where the innermost open allocation ends, with that one not a wrapper
  yet or no open allocation ending later (`FlagsExactIff`, and `FlagsNeedPositiveSizes` has an input).
* With five or more finders the loop of `Place` re-reads the same two children, so it ends in its first turn or never
  (`PlaceEndsAtOnceOrNever` says exactly when, and `FiveFindersLoop` has five sorted finders for which it never ends).
* Merging of touching ranges misses the case that a new range fills a whole gap (`TightUnlessGapFilled`, `GapsAreNotClosed`).
* A claim that spans permission classes is charged to one class only, and the rest of it stays unclaimed
  (`ClaimIsPartialAcrossClasses`; `ClaimAcrossClassesIsPartial` has an input).
* The sweep does not record what it claims in the row of all claims.  A claim made after it is therefore accepted even if
  its addresses are taken, and is then recorded in a class exactly if no region reaches into its range
  (`LateClaimsOfEveryRun`; `LateClaimIsAccepted` has an input).  The program itself makes no such claim: its only sweep is
  the last step of classification (src/Linux/LinuxProcessImage.h:168-173), so this is a fact about the interface.
* `NextUsed` reads the word of its start unchecked.  After the last member, the iterator over a derived set starts it at
  the number of allocations, which lies past the last word exactly if that number is a multiple of 64 (`Derived.Next`;
  `NextAfterLastOfWord` has an input).
* The free list check never compares a header's last pointer with the last node of a list that is not empty
  (`LastPointerIsNotChecked`).
* `Size()` of a contiguous image keeps its old value when the first byte of the allocation shown has no image.
* The limit on tags is 0x255, that is 597, although the message says 255.  The model follows the code.

## Model

| member | source | states |
|---|---|---|
| DirectoryContents.CrossingExactly | src/Allocations/Directory.h:380-391 | the stack of open intervals discards an offer exactly if some accepted allocation starts no later, is still open at its start, and ends before it does |
| DirectorySteps.StepKeeps | src/Allocations/Directory.h:374-434 | one offer in address order keeps the stack nested, the allocations laminar, whatever contains or lies in another flagged as such, and every wrapper filed on ordered, disjoint levels |
| DirectorySteps.BuiltKeeps | src/Allocations/Directory.h:374-434 | that holds after every sequence of offers in address order |
| DirectoryContents.BuiltRecordsKept | src/Allocations/Directory.h:374-434 | the directory records, in order and with address, size, use and finder, exactly the offers that cross none kept before them |
| DirectoryContents.AcceptedAreLaminar | src/Allocations/Directory.h:374-434 | accepted allocations are in address order, and any two are nested or disjoint |
| DirectoryFlags.FlagsExactStep | src/Allocations/Directory.h:392-403 | one offer in address order leaves all flags exact exactly if they were and it is not an empty one at the end of the innermost open allocation, with that one not a wrapper yet or no open allocation ending later |
| DirectoryFlags.FlagsExactIff | src/Allocations/Directory.h:392-403 | after any offers in address order, an allocation is marked as wrapper exactly if a later one lies in it and as wrapped exactly if it lies in an earlier one, for all allocations, if and only if no offer was of that kind |
| DirectoryFlags.FlagsAreExact | src/Allocations/Directory.h:392-403 | so the flags are exact when all accepted sizes are positive |
| DirectoryFlags.FlagsNeedPositiveSizes | src/Allocations/Directory.h:392-403 | two offers, the second empty, after which both are marked although neither lies in the other |
| DirectoryLevels.CarryMembers | src/Allocations/Directory.h:409-425 | the cascade files the new wrapper and loses none |
| DirectoryLevels.CarryOk | src/Allocations/Directory.h:409-425 | after the cascade each level is ordered and disjoint and no higher wrapper lies inside a lower one |
| DirectoryLevels.CarryTight | src/Allocations/Directory.h:409-425 | after the cascade each wrapper above the first level has one of the level below inside, unless the new wrapper starts where the offer ends and a displaced wrapper ends there |
| DirectoryExactness.ExactStaysIff | src/Allocations/Directory.h:404-425 | if each level holds exactly the wrappers of its nesting height, one offer in address order leaves it so exactly if it does not misfile: it is not empty, or does not start where the allocation starts that it turns into a wrapper, or no displaced wrapper ends there |
| DirectoryExactness.LevelsExactIff | src/Allocations/Directory.h:404-425 | after any offers in address order, each level holds exactly the wrappers of its nesting height if and only if no offer misfiled |
| DirectoryExactness.TooHighStays | src/Allocations/Directory.h:404-425 | a wrapper filed above its nesting height stays above it |
| DirectoryExactness.PositiveNeverMisfiles | src/Allocations/Directory.h:404-425 | only an empty accepted allocation misfiles |
| DirectoryExactness.LevelsAreHeights | src/Allocations/Directory.h:404-425 | if no offer misfiles, level k holds exactly the wrappers of nesting height k, in address order and pairwise disjoint |
| DirectoryExactness.HeightsHaveLevels | src/Allocations/Directory.h:404-425 | then every nesting height that occurs has a level |
| DirectoryHeights.LevelsNeedPositiveSizes | src/Allocations/Directory.h:404-425 | a sequence of offers with an empty one after which a wrapper of height 0 is on level 1 |
| DirectoryContents.MaxSizeIsMax | src/Allocations/Directory.h:430-432 | the recorded maximum bounds all accepted sizes and is one of them |
| DirectoryLookup.LeafIsInnermost | src/Allocations/Directory.h:237-255 | a leaf that contains an address lies in everything else that does |
| DirectoryLookup.WrapperIsInnermost | src/Allocations/Directory.h:256-283 | so does a wrapper that contains it if no leaf and no wrapper of a lower level does |
| DirectoryLookup.SearchLeaves | src/Allocations/Directory.h:238-255 | the binary search over possibly nested allocations finds the leaf that contains an address, or there is none |
| DirectoryLookup.SearchLevel | src/Allocations/Directory.h:266-282 | the binary search of a level finds its wrapper that contains an address, or there is none |
| DirectoryLookup.SearchWrappers | src/Allocations/Directory.h:256-284 | searching levels outward finds the innermost wrapper |
| DirectoryLookup.FindInnermost | src/Allocations/Directory.h:237-285 | the whole lookup returns the innermost allocation, or the number of allocations exactly if none contains the address |
| DirectoryLookup.PlaceWrapper | src/Allocations/Directory.h:409-425 | the loop over levels performs the cascade |
| DirectoryLookup.Directory.ConsumeCurrentAllocation | src/Allocations/Directory.h:374-434 | the fields, updated in place, become what the step function says, so that all of the above holds of them |
| DirectoryLookup.Directory.AllocationIndexOf | src/Allocations/Directory.h:237-285 | after any offers in address order, lookup is exact |
| FinderMerge.MergingStep | src/Allocations/Directory.h:440-470 | consuming an item that none must precede keeps a merge a merge |
| FinderMerge.MergeIsComplete | src/Allocations/Directory.h:189-219 | when all finders are finished, every item was consumed exactly once, in one order |
| FinderMerge.TopIsFirst | src/Allocations/Directory.h:550-556 | with at most four entries the heap order puts the item to consume next on top |
| FinderMerge.TopAdvanced | src/Allocations/Directory.h:551-567 | after the top finder advanced or was replaced by the last one, only the top may be out of order |
| FinderMerge.SiftedDown | src/Allocations/Directory.h:568-601 | putting the first child on top and the displaced finder below restores the heap |
| FinderMerge.SiftTop | src/Allocations/Directory.h:566-602 | after a turn of the loop the heap order holds and the remembered heads are current; the top keeps its place unless a child must precede it, and of children that tie the left one takes it |
| FinderMerge.MakeHeap | src/Allocations/Directory.h:524-533 | three or four finders are arranged as a heap, as std::make_heap promises |
| FinderMerge.Place | src/Allocations/Directory.h:472-519 | below the top of at most four entries, a finder takes the place of another: the others are the same, rearranged at most with the left child of the place, which is in order with that child afterwards |
| FinderMerge.PlaceEndsAtOnceOrNever | src/Allocations/Directory.h:472-507 | with five or more entries the loop ends in its first turn exactly if the finder beats the preferred child, and otherwise in no turn |
| FinderMerge.FiveFindersLoop | src/Allocations/Directory.h:472-507 | five sorted finders, first arranged as a heap, for which it ends in no turn after the first allocation is consumed |
| FinderMerge.KeptCameBefore | src/Allocations/Directory.h:374-434 | what an offer is compared with was consumed before |
| FinderMerge.DiscardedStartInside | src/Allocations/Directory.h:380-391 | with larger items first, what is discarded starts strictly inside the allocation that it crosses |
| FinderMerge.Resolver.ConsumeFrom | src/Allocations/Directory.h:374-434 | exactly one item of one finder is consumed, and the merge goes on |
| FinderMerge.Resolver.AppendRemainingAllocationsFromFinder | src/Allocations/Directory.h:435-440 | the last finder is consumed to its end |
| FinderMerge.Resolver.AppendRemainingAllocationsFromTwoFinders | src/Allocations/Directory.h:441-470 | two finders are consumed to their ends in the common order; if the second reports larger items first, its items precede those of the first with the same address and size |
| FinderMerge.Resolver.ConsumeTop | src/Allocations/Directory.h:550-566 | the item consumed is the first of all, and a finished finder gives up its place |
| FinderMerge.Resolver.AppendRemainingAllocationsFromFinders | src/Allocations/Directory.h:521-603 | three or four finders are consumed to their ends, with nothing lost when two are left |
| FinderMerge.Resolver.ResolveAllocationBoundaries | src/Allocations/Directory.h:189-219 | with at most four active finders, sorted by address, the whole resolution consumes a merge of all of them |
| GraphEdges.SortSorts | src/Allocations/Graph.h:645-763 | what is used of std::sort: the same elements in order |
| GraphEdges.CollectTargets | src/Allocations/Graph.h:645-763 | the targets collected for a source are, in order and with repetitions skipped, its edges |
| GraphEdges.CountTargets | src/Allocations/Graph.h:645-763 | each different target is counted once |
| GraphEdges.CountEdges | src/Allocations/Graph.h:645-763 | the first pass counts the sources of each target and places the outgoing edges of each source |
| GraphEdges.Accumulate | src/Allocations/Graph.h:645-763 | counts become ends of rows |
| GraphEdges.FillSource | src/Allocations/Graph.h:645-763 | the second pass enters the edges of one source in both tables without disturbing others |
| GraphEdges.FindEdges | src/Allocations/Graph.h:645-763 | row s of the outgoing table is the increasing list of the distinct targets of s other than s, row t of the incoming table that of its sources, and each decremented start is back at the start of its row |
| GraphEdges.TablesAreTransposed | src/Allocations/Graph.h:645-763 | t is in the outgoing row of s exactly if s is in the incoming row of t, and exactly if s refers to t |
| EdgeSearch.EntriesAreEdges | src/Allocations/Graph.h:98-192 | each entry of either table is an edge and each edge has an entry in both |
| EdgeSearch.SearchSlice | src/Allocations/Graph.h:98-120 | the binary search of a row finds an element exactly if it is there |
| EdgeSearch.GetIncomingEdgeIndex | src/Allocations/Graph.h:98-120 | the incoming index of an edge, or the number of edges exactly if there is no such edge |
| EdgeSearch.GetOutgoingEdgeIndex | src/Allocations/Graph.h:169-191 | the same for the outgoing index |
| EdgeSearch.WithoutWrappersIsFlat | src/Allocations/Directory.h:374-434 | if nothing nests and sizes are positive, allocations are disjoint and in order |
| EdgeSearch.TargetAllocationIndex | src/Allocations/Graph.h:201-222 | the target of an allocation that contains an address is found exactly if there is one |
| EdgeSearch.TargetEdgeIndex | src/Allocations/Graph.h:223-243 | the same, giving the index of the edge |
| EdgeSearch.SourceAllocationIndex | src/Allocations/Graph.h:125-145 | the source that contains an address is found exactly if there is one |
| EdgeSearch.ResolvedWordsAreFound | src/Allocations/Graph.h:201-222 | every word that the directory resolves to another allocation is found through the edges |
| EdgeTags.SetBoth | src/Allocations/EdgePredicate.h:48-56 | writing one value under both numbers of an edge changes the relation at that edge only |
| EdgeTags.EdgePredicate.Set | src/Allocations/EdgePredicate.h:48-56 | one edge changes, or nothing if there is no such edge |
| EdgeTags.EdgePredicate.SetAllOutgoing | src/Allocations/EdgePredicate.h:24-34 | exactly the outgoing edges of an allocation take the value, under both numberings |
| EdgeTags.EdgePredicate.SetAllIncoming | src/Allocations/EdgePredicate.h:36-46 | exactly the incoming edges of an allocation take the value, under both numberings |
| EdgeTags.EdgePredicate.For | src/Allocations/EdgePredicate.h:58-62 | the relation, and false for what is no edge |
| EdgeTags.EdgePredicate.ForIncoming | src/Allocations/EdgePredicate.h:64-66 | the same relation by incoming number |
| EdgeTags.EdgePredicate.ForOutgoing | src/Allocations/EdgePredicate.h:68-70 | the same relation by outgoing number |
| EdgeTags.TagsOnlyStrengthen | src/Allocations/TagHolder.h:54-81 | over every run, tags go from none to any or from weak to strong, and otherwise stay |
| EdgeTags.WithdrawnStays | src/Allocations/TagHolder.h:54-81 | over every run, tagging makes no edge favored or tainted |
| EdgeTags.ReplacementWithdraws | src/Allocations/TagHolder.h:61-78 | replacing a weak tag withdraws the taint of outgoing edges and, if it supported favored references, the favor of incoming ones, and nothing else |
| EdgeTags.TagHolder.RegisterTag | src/Allocations/TagHolder.h:39-52 | a new number with the given traits; other traits and all tags stay |
| EdgeTags.TagHolder.TagAllocation | src/Allocations/TagHolder.h:54-81 | the allocation gets the tag exactly if it had none, or a weak one and the new one is strong, and the result tells so; only then, and only if it had a tag, its outgoing edges lose their taint and its incoming ones, if the old tag supported it, their favor; nothing else changes |
| TagRuns.FirstStrongTagWins | src/Allocations/TagHolder.h:54-81 | over every run, the first strong tag given to an allocation without a strong one is the one it ends with |
| TagRuns.FirstTagStays | src/Allocations/TagHolder.h:54-81 | over every run that gives it no strong tag, an untagged allocation ends with the first tag it is given |
| TagRuns.Untouched | src/Allocations/TagHolder.h:54-81 | over every run that gives it no tag, an allocation keeps the tag it has |
| Marking.Widen | src/Allocations/IndexedDistances.h:20-56 | copying to wider elements changes no distance |
| Marking.IndexedDistances.SetDistance | src/Allocations/IndexedDistances.h:20-56 | the store of 8, 16 or 32 bits behaves as one plain array, whatever widening takes place |
| Marking.IndexedDistances.GetDistance | src/Allocations/IndexedDistances.h:58-70 | the distance last stored |
| Marking.ReachIsPath | src/Allocations/Graph.h:765-801 | being reached within k links is the existence of a path of used allocations with at most k links |
| Marking.WalkMeasures | src/Allocations/Graph.h:765-801 | when the queue is empty, each distance is one more than the length of a shortest path, or 0 if there is none |
| Marking.MarkAnchoredChunks | src/Allocations/Graph.h:765-841 | marking stores those distances for all allocations and clears the leaked flag exactly where one is positive |
| Marking.MarkAnchorPoints | src/Allocations/Graph.h:765-784 | used anchor points, each once, get distance 1 |
| Marking.MarkTargets | src/Allocations/Graph.h:785-800 | the unvisited targets of an allocation get one more than its distance |
| Marking.DistanceDecides | src/Allocations/Graph.h:245-360 | a positive distance means reachable, and distance 1 means a used anchor point |
| Marking.LeakedExactly | src/Allocations/Graph.h:931-943 | after all four kinds, leaked means used and unreachable from every anchor point |
| Marking.LeakAnalysis.IsLeaked | src/Allocations/Graph.h:245-248 | true exactly for used allocations that no anchor point reaches through used allocations |
| Marking.LeakAnalysis.IsAnchored | src/Allocations/Graph.h:249-253 | true exactly for used allocations that some anchor point reaches |
| Marking.LeakAnalysis.IsUnreferenced | src/Allocations/Graph.h:585-601 | a leaked allocation is unreferenced exactly if no leaked one refers to it, although the test is for used ones |
| AnchorWalk.StackIsChain | src/Allocations/Graph.h:548-580 | an anchor point and the stack below it form a chain of links to the allocation to explain, each closer to an anchor point than the next |
| AnchorWalk.InspectOnce | src/Allocations/Graph.h:474-583 | no incoming edge is inspected twice |
| AnchorWalk.EndsAtAnchorPoint | src/Allocations/Graph.h:474-583 | a search that ends has followed an anchor point, although rejected sources were marked visited too |
| AnchorReports.ReportChain | src/Allocations/Graph.h:548-576 | the anchor point, if its words are mapped, and then the members of a chain up to the first one whose words are not are told in order; the report stops exactly when the visitor asks to after what it was told so far |
| AnchorChains.InspectEdge | src/Allocations/Graph.h:516-579 | inspecting one edge passes over its source or follows it, reporting a chain if that is at distance 1 |
| AnchorChains.EndsSettled | src/Allocations/Graph.h:499-583 | in a search that ended, each used source with a distance of something followed was followed as well, or is no closer than something followed that it refers to |
| AnchorChains.WalkBack | src/Allocations/Graph.h:499-583 | the search ends; unless it was stopped, the chains reported begin with exactly the followed allocations at distance 1, each once, and nothing that should have been followed was left out |
| AnchorChains.VisitAnchorChains | src/Allocations/Graph.h:474-583 | each list told is a chain of links from an anchor point along which distances do not grow towards the anchor point, given up to the first member that is not mapped; the search stops exactly when the visitor asks to; unless stopped, the chains are those of WalkBack; an anchored allocation gets at least one, another none; each incoming edge is inspected at most once |
| AnchorChains.SourceIsReported | src/Allocations/Graph.h:499-583 | if nothing stops the search and what is used is mapped, each used anchor point that refers to the allocation and to no other anchor point begins a chain reported in full |
| AnchorChains.AnchorPointIsAlone | src/Allocations/Graph.h:492-498 | the report about an anchor point is the anchor point alone |
| AllocationSet.Set.Add | src/Allocations/Set.h:24-27 | the set gains exactly the index |
| AllocationSet.Set.Has | src/Allocations/Set.h:28-31 | membership |
| AllocationSet.Set.NextUsed | src/Allocations/Set.h:33-54 | the least member from a place on, or the number of allocations exactly if there is none; nothing is defined exactly if the place is in no word |
| AllocationSet.StartInWordsIff | src/Allocations/Set.h:17-22 | a place up to the number of allocations is in some word exactly unless it is that number and a multiple of 64 |
| AllocationSet.Derived.Next | src/Allocations/Iterators/Derived.h:47-54 | each call gives the least member not given yet, or the number of allocations if there is none; it is undefined exactly if all were passed and their number is a multiple of 64 |
| AllocationSet.NextAfterLastOfWord | src/Allocations/Iterators/Derived.h:47-54 | a set of 64 allocations for which the iterator starts past the last word |
| AllocationSet.Set.Assign | src/Allocations/Set.h:56-61 | the set becomes equal to the other |
| AllocationSet.Set.Subtract | src/Allocations/Set.h:63-70 | set difference |
| AllocationSet.FindFrom | src/Allocations/Set.h:33-54 | the search by words and bits for the least member from a place on |
| ExtendedVisitor.ExtendIsFresh | src/Allocations/ExtendedVisitor.h:153-397 | the recursive definition visits only what was not visited, once each, and records exactly that |
| ExtendedVisitor.VisitAllIsFresh | src/Allocations/ExtendedVisitor.h:111-397 | over any sequence of visits with one record, each allocation is visited at most once and every member is visited |
| ExtendedVisitor.CandidatesAreReferences | src/Allocations/ExtendedVisitor.h:185-262 | the candidates of a rule for a member to which it applies are, each once and in increasing order, the allocation at the offset in the member, what the member refers to, or what refers to the member, as the rule says |
| ExtendedVisitor.VisitMemberCloses | src/Allocations/ExtendedVisitor.h:111-397 | for each visit, in the state recorded with it, all that the rules of that state refer to and accept is visited in the end |
| ExtendedVisitor.VisitAllCloses | src/Allocations/ExtendedVisitor.h:111-397 | that holds over any sequence of visits with one record |
| ExtendedVisitor.VisitAllIsLed | src/Allocations/ExtendedVisitor.h:111-397 | nothing else is visited: each visit is that of a member in the base state, or a rule of the state of an earlier visit refers from its member to it, accepts it and has its state as the new one |
| ExtendedOrder.VisitAllDepthFirst | src/Allocations/ExtendedVisitor.h:111-397 | each visit is followed by the first one that it leads to, by the order of rules and then of references, unless all that it leads to was visited before |
| ExtendedVisitor.ExtendCloses | src/Allocations/ExtendedVisitor.h:153-397 | no remaining candidate and no later rule of a member is skipped |
| ExtendedWalk.PushedUnwinds | src/Allocations/ExtendedVisitor.h:359-369 | a frame with no rules left, which is not pushed, would have led to nothing |
| ExtendedWalk.CandidateEnters | src/Allocations/ExtendedVisitor.h:359-397 | going on with an accepted candidate, and later with its member, makes the visits that the recursive definition makes |
| ExtendedWalk.NextCandidate | src/Allocations/ExtendedVisitor.h:185-262 | candidates come one by one in the order of the definition; the first one for a new rule is the least that the rule refers to, and there is none exactly if it refers to nothing |
| ExtendedWalk.Advance | src/Allocations/ExtendedVisitor.h:163-184 | from a rule that is done, the next rule, the member below or the end; nothing owed is lost |
| ExtendedWalk.Follow | src/Allocations/ExtendedVisitor.h:359-397 | following a candidate leaves owed all but the visit just made |
| ExtendedWalk.Visitor.Visit | src/Allocations/ExtendedVisitor.h:111-397 | an enabled visitor visits what the recursive definition visits, in its order; a disabled one visits the member alone |
| ExtendedWalk.Visitor.Walk | src/Allocations/ExtendedVisitor.h:153-397 | the loop with its explicit stack ends and equals the recursive definition |
| RuleGroups.PlaceOne | src/Allocations/ExtendedVisitor.h:574-578 | placing one argument from the back fills the next place of its state |
| RuleGroups.CountLimits | src/Allocations/ExtendedVisitor.h:542-564 | counts become the limits of states |
| RuleGroups.OrderArguments | src/Allocations/ExtendedVisitor.h:572-578 | each state gets the slice of its arguments in their own order, and limits become bases |
| RuleGroups.GroupRules | src/Allocations/ExtendedVisitor.h:542-587 | the rules so created are a permutation of the arguments that keeps the order within each state, grouped by state as the walk requires |
| TypeInfo.DescendsIsTransitive | src/CPlusPlus/TypeInfoDirectory.h:439-483 | derivation is transitive |
| TypeInfo.DescendsIsLeast | src/CPlusPlus/TypeInfoDirectory.h:439-483 | it is the least transitive relation with all direct derivations |
| TypeInfo.TakeKeeps | src/CPlusPlus/TypeInfoDirectory.h:439-483 | taking a type from the queue keeps what the worklist relies on |
| TypeInfo.PassKeeps | src/CPlusPlus/TypeInfoDirectory.h:439-483 | passing on to one base keeps counts, finds, queue and order right |
| TypeInfo.LeftOverIffCyclic | src/CPlusPlus/TypeInfoDirectory.h:439-483 | counts are left over exactly if some type is derived from itself |
| TypeInfo.Propagate | src/CPlusPlus/TypeInfoDirectory.h:439-483 | the worklist is exact for every type not left over, and never wrong for others |
| TypeInfo.FillInDerivedTypeInfos | src/CPlusPlus/TypeInfoDirectory.h:439-483 | the derived types of each type are all types derived from it, directly or not |
| TypeInfo.ResolveUsedSignatures | src/CPlusPlus/TypeInfoDirectory.h:525-586 | the signatures of each type are its own and those of all types derived from it |
| CorruptionChecker.PassedIffFree | src/LibcMalloc/DoublyLinkedListCorruptionChecker.h:62-114 | a node is passed exactly if it starts an allocation, is free, is in the arena, has an agreeing back pointer and previous size, and can be read |
| CorruptionReports.NoAllocationIff | src/LibcMalloc/DoublyLinkedListCorruptionChecker.h:64-73 | a node is reported as not matching an allocation exactly if none contains its start |
| CorruptionReports.WrongOffsetIff | src/LibcMalloc/DoublyLinkedListCorruptionChecker.h:75-86 | the first node is reported with a wrong offset exactly if the innermost allocation at its start starts elsewhere |
| CorruptionReports.UnexpectedForwardLinkIff | src/LibcMalloc/DoublyLinkedListCorruptionChecker.h:75-86 | for a later node of this kind the one before it is reported with an unexpected forward link |
| CorruptionReports.WrongStatusIff | src/LibcMalloc/DoublyLinkedListCorruptionChecker.h:87-94 | a node is reported with a wrong status bit exactly if it starts its innermost allocation and the word after that is odd |
| CorruptionReports.WrongArenaIff | src/LibcMalloc/DoublyLinkedListCorruptionChecker.h:95-100 | a node is reported in the wrong arena exactly if it is otherwise free and belongs to another arena |
| CorruptionReports.UnexpectedBackPointerIff | src/LibcMalloc/DoublyLinkedListCorruptionChecker.h:101-106 | a node is reported with an unexpected back pointer exactly if it is free in the arena and its back pointer is in the core and does not name the node before |
| CorruptionReports.WrongPrevSizeIff | src/LibcMalloc/DoublyLinkedListCorruptionChecker.h:107-114 | a node is reported with a wrong previous size exactly if it is linked back and the last word of its allocation is in the core and is not its size and one word |
| CorruptionReports.NotInCoreIff | src/LibcMalloc/DoublyLinkedListCorruptionChecker.h:63-121 | an address is reported as not in the core exactly if it is the first word to be read for the node that is not |
| CorruptionReports.EmptyIff | src/LibcMalloc/DoublyLinkedListCorruptionChecker.h:47-60 | the two reports about a header that is empty at one end only, with the pointer at the other end |
| CorruptionReports.OtherIff | src/LibcMalloc/DoublyLinkedListCorruptionChecker.h:44-121 | any other report is about a pointer of the header that is not in the core, or about a node to which passed nodes lead |
| CorruptionChecker.PassedAreDistinct | src/LibcMalloc/DoublyLinkedListCorruptionChecker.h:61-115 | nodes passed differ, because their back pointers name their predecessors |
| CorruptionChecker.OutcomeIsUnique | src/LibcMalloc/DoublyLinkedListCorruptionChecker.h:44-122 | memory decides what is reported for a list |
| CorruptionChecker.SilentIffRing | src/LibcMalloc/DoublyLinkedListCorruptionChecker.h:44-122 | nothing is reported exactly if the forward links lead through distinct free nodes with agreeing back pointers back to the header, and the last pointer names the header exactly for an empty list |
| CorruptionChecker.RingIsUnique | src/LibcMalloc/DoublyLinkedListCorruptionChecker.h:61-115 | the nodes of such a list are determined by memory |
| CorruptionChecker.LastPointerIsNotChecked | src/LibcMalloc/DoublyLinkedListCorruptionChecker.h:47-60 | a list with a last pointer that names no node, for which nothing is reported |
| CorruptionChecker.CheckNode | src/LibcMalloc/DoublyLinkedListCorruptionChecker.h:63-114 | one node, with the innermost allocation at its start, is passed or reported as the rows above say |
| CorruptionChecker.WalkList | src/LibcMalloc/DoublyLinkedListCorruptionChecker.h:61-115 | for every memory the walk ends after passing at most as many nodes as there are allocations |
| CorruptionChecker.CheckList | src/LibcMalloc/DoublyLinkedListCorruptionChecker.h:46-121 | one list gets the outcome that memory decides, reads that fail included |
| CorruptionChecker.SilentIffAllRings | src/LibcMalloc/DoublyLinkedListCorruptionChecker.h:44-122 | nothing is reported for an arena exactly if all of its lists are in order |
| CorruptionChecker.CheckDoublyLinkedListCorruption | src/LibcMalloc/DoublyLinkedListCorruptionChecker.h:30-122 | every list from the first to the last is checked, and its report, if any, is made in order |
| RangeMaps.HasOnce | src/RangeMapper.h:109-158 | in a valid row no address has two values |
| RangeMapping.MapAdds | src/RangeMapper.h:109-158 | mapping a range that overlaps none adds exactly its addresses, and the position returned covers it with its value |
| RangeMapping.MapRefuses | src/RangeMapper.h:109-158 | mapping a range that overlaps another changes nothing and returns the position of one in the way |
| RangeMapping.MapKeepsValid | src/RangeMapper.h:109-158 | ranges stay non-empty, disjoint and in order, and success means empty or free |
| RangeMerging.TightUnlessGapFilled | src/RangeMapper.h:119-154 | touching ranges with equal values stay merged exactly unless the new range fills the gap before one |
| RangeMerging.OthersStay | src/RangeMapper.h:109-158 | without merging, or if no touching range has an equal value, the new range is added alone and every other stays as it was |
| RangeMerging.GapsAreNotClosed | src/RangeMapper.h:136-153 | three touching ranges with equal values of which two are merged |
| RangeUnmapping.UnmapRemoves | src/RangeMapper.h:167-216 | unmapping removes exactly the given addresses, whatever ranges are cut or split, and keeps the row valid |
| RangeUnmapping.UnmapUndoesMap | src/RangeMapper.h:109-216 | unmapping what was just mapped restores the mapping |
| RangeLookup.FindIsExact | src/RangeMapper.h:218-227 | lookup gives the range that covers an address, or the end exactly if none does |
| RangeLookup.RangeMapper.MapRange | src/RangeMapper.h:109-158 | the row changed in place, the position and the result are those of the function |
| RangeLookup.RangeMapper.UnmapRange | src/RangeMapper.h:167-216 | the row changed in place is that of the function |
| RangeLookup.RangeMapper.FindMember | src/RangeMapper.h:218-227 | the range that covers an address, or the end |
| RangeLookup.RangeMapper.FindRange | src/RangeMapper.h:248-262 | base, size and value of the range that covers an address, which are left alone if none does |
| PartitionStart.InitialIsRegions | src/VirtualMemoryPartition.h:20-51 | at first what is unclaimed is, with its flags, in the class of writable ranges if its region is writable, of the others in that of executable ones if it is executable, then in that of readable ones, then in the last one; writable ranges with images are candidates for anchors |
| PartitionLimits.ChargedToFirst | src/VirtualMemoryPartition.h:65-104 | a claim is charged to the class called for by the flags of the first region it reaches into, and to the inaccessible one if there is none |
| PartitionClaims.InnerMapSucceeds | src/VirtualMemoryPartition.h:53-104 | before the sweep, a range not claimed at all is free in every class |
| PartitionClaims.ClaimConserves | src/VirtualMemoryPartition.h:84-104 | a claim moves its addresses from unclaimed to claimed in its class |
| PartitionClaims.ClaimIsCharged | src/VirtualMemoryPartition.h:53-104 | before the sweep, each claimed address is claimed in exactly one class, under the same label |
| PartitionRuns.SweptClaimsAll | src/VirtualMemoryPartition.h:106-123 | the sweep claims exactly what is unclaimed in a class, as unknown |
| PartitionRuns.SweepKeeps | src/VirtualMemoryPartition.h:106-123 | the sweep conserves addresses and leaves none unclaimed |
| PartitionRuns.EveryRunKeeps | src/VirtualMemoryPartition.h:53-123 | in every run of claims and sweeps, what is unclaimed in a class is what it had at first without what is claimed |
| PartitionRuns.CandidatesAreExact | src/VirtualMemoryPartition.h:84-126 | in every run, the candidates for static anchors are the writable ranges with images without what accepted claims that do not keep them cover |
| PartitionRuns.SweepLeavesNothing | src/VirtualMemoryPartition.h:106-123 | after a sweep every address of a region is claimed in the class of the region |
| PartitionLimits.ClaimIsPartialAcrossClasses | src/VirtualMemoryPartition.h:65-81 | before the sweep, an accepted claim leaves some of its addresses unclaimed exactly if a region of another class than the charged one reaches into it |
| PartitionLimits.ClaimAcrossClassesIsPartial | src/VirtualMemoryPartition.h:65-81 | two regions of different classes side by side and a claim of both, which leaves the second unclaimed |
| PartitionLate.EveryRunAccounts | src/VirtualMemoryPartition.h:53-123 | in every run, whatever a class has claimed was claimed by a call or lies in a region |
| PartitionLate.LateClaimsAreLost | src/VirtualMemoryPartition.h:53-104 | after a sweep, a claim that any region reaches into changes the claims of no class |
| PartitionLate.LateClaimsOfEveryRun | src/VirtualMemoryPartition.h:53-123 | after any run with a sweep, an accepted claim of a non-empty range is recorded in some class, under its label and at addresses the class had not claimed, exactly if no region reaches into the range |
| PartitionLate.LateClaimIsAccepted | src/VirtualMemoryPartition.h:53-123 | a claim after the sweep that is accepted although its addresses stay unknown |
| VirtualMemory.AllUnclaimed | src/VirtualMemoryPartition.h:30-51 | the loop over regions builds the initial partition |
| VirtualMemory.ClaimAll | src/VirtualMemoryPartition.h:106-123 | the loop over unclaimed ranges of one class |
| VirtualMemory.VirtualMemoryPartition.ClaimRange | src/VirtualMemoryPartition.h:53-82 | the fields become what the run including this claim leads to, and the result tells whether it was accepted |
| VirtualMemory.VirtualMemoryPartition.RecordClaim | src/VirtualMemoryPartition.h:53-82 | the row of all claims and the rows of one class take an accepted claim, and nothing changes otherwise |
| VirtualMemory.VirtualMemoryPartition.ClaimRangeWithFlags | src/VirtualMemoryPartition.h:84-104 | the rows of the class of the flags, and no others, take the claim |
| VirtualMemory.VirtualMemoryPartition.ClaimUnclaimedRangesAsUnknown | src/VirtualMemoryPartition.h:106-123 | the fields become what the run including this sweep leads to |
| VirtualMemory.VirtualMemoryPartition.IsClaimed | src/VirtualMemoryPartition.h:162-164 | whether an accepted claim covers an address |
| AddressMap.FindsOnce | src/VirtualAddressMap.h:102-156 | there is one thing that a read finds: the bytes if all of them are in one range with an image, and otherwise nothing |
| AddressMap.FoundBytesAreMapped | src/VirtualAddressMap.h:102-156 | each byte found is the one mapped at its own address |
| AddressMap.FindsStringOnce | src/VirtualAddressMap.h:429-456 | there is one string that a read finds |
| AddressMap.CachedIsOnly | src/VirtualAddressMap.h:107-124 | a remembered range that covers the first byte is the only one that can hold all bytes |
| AddressMap.FoundNumber | src/VirtualAddressMap.h:102-156 | the number made of what is found is below 256 to the number of bytes, and each of its digits to the base 256, from the least significant on, is the byte mapped at its address |
| AddressMap.NumberOnce | src/VirtualAddressMap.h:102-156 | memory determines that number |
| AddressMap.AnswersOnce | src/VirtualAddressMap.h:102-456 | the map alone decides the result of a call |
| AddressMap.Reader.Fetch | src/VirtualAddressMap.h:102-126 | with any cache, a read of any size finds what an uncached one finds, and a read whose limit wraps finds nothing |
| AddressMap.Reader.Read | src/VirtualAddressMap.h:102-126 | the throwing form: the number by its digits if all bytes are in one range with an image, and otherwise the failure with the address |
| AddressMap.Reader.ReadOr | src/VirtualAddressMap.h:132-156 | the form with a default |
| AddressMap.Reader.Read32 | src/VirtualAddressMap.h:279-302 | the signed form: the number of 32 bits with a sign that is congruent to the unsigned one, or the default |
| AddressMap.CopyString | src/VirtualAddressMap.h:448-455 | bytes up to a zero byte, and a zero byte if there is room |
| AddressMap.Reader.ReadCString | src/VirtualAddressMap.h:429-456 | the string up to a zero byte, the end of the range or of the buffer; without an image nothing, and the buffer is left alone |
| AddressMap.ReadAll | src/VirtualAddressMap.h:102-456 | in any interleaving of calls each returns what it would return by itself |
| ContiguousImage.IsByteOnce | src/Allocations/ContiguousImage.h:37-122 | the byte to show at an address is determined |
| ContiguousImage.GapIsEmpty | src/Allocations/ContiguousImage.h:78-112 | between the ranges gathered and the next one nothing has an image |
| ContiguousImage.TakeRange | src/Allocations/ContiguousImage.h:89-108 | zeros up to the next range and then its bytes are right |
| ContiguousImage.Gather | src/Allocations/ContiguousImage.h:75-112 | the bytes gathered over several ranges are right, and the range remembered is a real one |
| ContiguousImage.BytesInFileAreRight | src/Allocations/ContiguousImage.h:66-68 | so are the bytes used in place |
| ContiguousImage.WordBytes | src/Allocations/ContiguousImage.h:115-119 | the words shown are the whole ones, and none at an address that is not aligned |
| ContiguousImage.ContiguousImage.LoadBytes | src/Allocations/ContiguousImage.h:48-114 | the view is right exactly if the first byte has an image, whatever range is remembered |
| ContiguousImage.ContiguousImage.SetIndex | src/Allocations/ContiguousImage.h:37-122 | after every call the view has the mapped byte or 0 at each place; without an image of the first byte there are no words and the size is the old one |

## Left out

- FinderMerge.Resolver.ResolveAllocationBoundaries: runs with five or more active finders, since the loop need not end there; when it does not is proved.
- FinderMerge.Resolver.AppendRemainingAllocationsFromFinders: takes three or four finders, for the same reason.
- FinderMerge.Resolver.ConsumeTop: takes three or four finders, for the same reason.
- FinderMerge.SiftTop: takes three or four finders, for the same reason.
- FinderMerge.Place: takes three or four entries; its loop for more is `PlaceTurns`.
- FinderMerge.MakeHeap: takes three or four finders, as only those are merged to the end.
- Wrapping of `address + size` of an allocation, a range or a claim: these sums are taken to fit in an address.
- CorruptionChecker.CheckDoublyLinkedListCorruption: requires that the headers of the arena lie below the top of the address space, as otherwise its outer loop would not end.
- Allocations are records; their packing in bits, and `MarkAsThreadCached`, which as written keeps one bit only, are not modelled.
- AnchorChains.VisitAnchorChains: does not say in which order sources are inspected, on which depends whether an anchor point that also refers to another one is reported.
- Which of three or four finders goes first for equal address and size, as that depends on std::make_heap; what one turn of the loop does then is stated.
- Names of tags and the lookup of tags by name.
- What std::make_heap and std::sort do beyond their promise; they are modelled by small sorts of their own.
- Invalidation of iterators when a hash map grows in `TypeInfoDirectory`; the bases of a type are visited in any order.
- `TypeInfoDirectory::CheckOrRegister` and the search for type_info objects; the two direct relations are taken to be converse and to concern registered types.
- `AddSignatures`, which returns at the first type without signatures.
- EdgeSearch.TargetAllocationIndex: does not cover nested allocations, nor do the other searches by address in `Graph`, where a wrapper may be returned in place of an allocation inside it.
- The obscured reference checker in `EdgeTargetIndex`: what a word resolves to is a parameter.
- The words passed to visitors of anchor points, and where in memory they are; only whether there is one matters.
- Clearing sets with memset by bytes, and bit operations on words as numbers: a word is a list of 64 bits.
- What a visitor does on a visit, comments on extensions, and annotations; a disabled visitor visits members repeatedly, as written.
- The parsing of extension rules and the matching of signatures, patterns and offsets, which are parameters of the walk.
- The five-argument form of `ClaimRange` called from outside, which bypasses the row of all claims.
- AddressMap.Reader.Fetch: excludes ranges that reach the very end of the address space, whose limit would wrap to 0.
- `Reader::Read<T>`, which lacks the guard against wrapping, and `FindMappedMemoryImage`.
- `AddRange` and truncated files: ranges come with flags that say whether there is an image.
- Eight bit reads to sixty-four bit reads are one method with the number of bytes as an argument.
- Files, ELF, threads, stacks, Go, Python and other discovery heuristics, the unmangler, describers and the command line.
