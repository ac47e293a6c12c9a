# Verified models of the 9P.e consensus, mesh, filesystem and history cores

This project models the parts of the repository that carry state or algorithms worth a proof, and proves what they
promise over all inputs, all runs and all iteration orders. `dafny verify dfyconfig.toml` checks everything.

| files | what they model |
|---|---|
| `Wrappers`, `ByteStrings`, `Arithmetic`, `Bits`, `BigEndian` | what several models share: options, bytes and hashes, facts about products, quotients and powers of two, bits of numbers, bytes read as numbers |
| `Reachability`, `BlueSet`, `BlockDag`, `Colouring`, `DagRuns`, `GhostDag`, `LongestChain`, `DagExamples` | the GhostDAG consensus state: block DAG, searches, k-clusters, blue sets, tips |
| `KademliaIds`, `Selection`, `Kademlia` | the Kademlia routing table |
| `SynthFs` | the synthetic filesystem and the interleavings of its locked sections |
| `Text`, `LineFunctions`, `FunctionFiles`, `FileOperations` | UTF-8 lines, function files with memo nodes and lazy caches, normal and synthetic files |
| `Conv2d` | the reference convolution, with its 32-bit index arithmetic |
| `RateLimiting`, `Acl` | the rate limiter and the choice of the access-control entry |
| `Difficulty`, `EventChain` | the difficulty test and the pruned event chain |

How the model is laid out. A class with the source's fields and methods stands for each object that the source updates
in place; every method is proved against a function or relation on values, and the laws are lemmas about those.
Hash sets and hash maps are iterated with `:|`, so every result holds for every iteration order. The blue-set
recursion is a relation `BlueSetOf` that holds of every set some iteration order can return: orders may differ between
two computations for the same block, as they do in the program.

What the code does not promise, and what holds instead:

- A blue set is not always a k-cluster, because each tip on the way is inserted unchecked. It is one exactly when no
  insertion down the whole chain of chosen parents did harm (`BlueSetClusterIff`, and `ReachableClusterIff` for the
  stored set): each tip was in the parent's blue set already, or had room in it, which means at most k members outside
  its past and future, each with fewer than k of its own. Room for the last tip alone is not enough, as a harm done
  further down stays. Three additions with k = 1 lead to a stored set that is no 1-cluster (`RunStoresNoCluster`,
  `AddFork`).
- `compute_future` lists direct children only, so the unbounded anticone is too large in general
  (`WideAnticoneNotExact`); it is exact if and only if every descendant is a direct child (`WideAnticoneSound`).
- Applying a filter twice is not always applying it once: a kept line that ends in a carriage return loses it
  (`FilterTwiceDiffers`). It is the same exactly when no kept line does (`FilterTwiceIff`).
- A rate limit of zero still admits the first request of every window after the first one. The bound of twice
  `max_requests` holds exactly for positive limits (`NeverTwiceIff`), and the sharp bound is `2 * max_requests - 1`
  (`AdmitsBelowTwice`, `BoundIsSharp`).
- The comment on `bucket_index` speaks of the first differing bit; the number it computes counts bits inside a byte from
  the other end. Buckets still correspond one to one to common-prefix lengths (`SameBucketIff`).
- The wildcard principal `*` that the access check looks for is no valid user name, so `add_acl` always refuses it; in a
  table built by additions only an entry that names the user decides (`WildcardNeverAdded`, `NamedDecides`).
- The output size of the convolution wraps to zero in one case, an empty kernel with stride 1 over a padded size of
  2^32 - 1 (`OutSizeExact`); everywhere else under `AxisFits` it is exact.
- A block created locally keeps the all-zero hash it starts with, because that hash meets every difficulty
  (`MeetsEverythingIff`), and its height stops at 100 once the chain is pruned (`MadeHere` inside
  `EventChain.RunKeepsInvariant`).
- `meets_difficulty` reads past the hash exactly for a difficulty of at least 264 on the zero hash; the model answers
  `None` there, where the program panics.

## Model

| member | source | states |
|---|---|---|
| Reachability.ReachesUnfold | legacy/src/ghostdag.rs:162-170 | what a block reaches is its successors and what they reach, nothing else |
| Reachability.ReachesReversed | legacy/src/ghostdag.rs:362-367 | reaching over mirrored lists is reaching backwards |
| Reachability.RankedIsAcyclic | legacy/src/ghostdag.rs:339-344 | lists along which a rank falls have no cycle |
| Reachability.ExploringStep | legacy/src/ghostdag.rs:162-170 | one turn of the queue loop, block taken already or not, keeps what the search knows |
| Reachability.ExploringDone | legacy/src/ghostdag.rs:150-173 | an empty queue means that exactly the reachable blocks were taken |
| Reachability.SearchCorrect | legacy/src/ghostdag.rs:460-475 | the depth-limited stack search returns only reachable blocks, never the root, and all of them or at least bound many |
| Reachability.BoundedReachSound | legacy/src/ghostdag.rs:450-478 | for every bound the search is a subset of the reachable blocks, exact or at least bound large |
| Reachability.BoundedReachExact | legacy/src/ghostdag.rs:450-478 | with a bound of at least the number of blocks the search is exact |
| Reachability.BoundedReachVisits | legacy/src/ghostdag.rs:460-475 | bound zero finds nothing, any other bound only successors of at most bound + 1 nodes that are the root or found |
| BlueSet.ExtendedOutcome | legacy/src/ghostdag.rs:313-320 | in any order the greedy loop keeps its start, adds only candidates, and if it adds any its result was accepted |
| BlueSet.ExtendedRefused | legacy/src/ghostdag.rs:313-320 | a candidate that the loop left out failed the test when it was offered |
| BlueSet.PreferredIsLargest | legacy/src/ghostdag.rs:280-298 | there are blue sets of the parents, one each, of which the chosen parent's is at least as large as every other and strictly larger than every earlier one |
| BlueSet.BlueSetEmptyIff | legacy/src/ghostdag.rs:262-278 | a blue set is empty iff the depth is used up, the tip was visited or is unknown; a root's is the root |
| BlueSet.BlueSetUnwind | legacy/src/ghostdag.rs:280-322 | every blue set comes from the blue set of a preferred parent, the tip, and the greedy loop |
| BlueSet.BlueSetInside | legacy/src/ghostdag.rs:256-325 | blue sets hold only known blocks, and the tip |
| BlueSet.GuardNeverFires | legacy/src/ghostdag.rs:262-267 | one nested call keeps every visited block a strict descendant of the next one, so the guard does not fire there |
| BlueSet.GuardNeverFiresOn | legacy/src/ghostdag.rs:262-267 | along every parent path from an empty visited set the guard never fires, at any depth |
| BlueSet.VisitedIrrelevant | legacy/src/ghostdag.rs:256-325 | the blue sets are the same for every visited set the recursion can have |
| BlueSet.BlueSetHoldsChain | legacy/src/ghostdag.rs:280-309 | every blue set contains a chain of chosen parents from the tip until a root or the end of the depth |
| BlueSet.ChainEnds | legacy/src/ghostdag.rs:262-278 | such a chain ends at a root, unless a parent path as long as the depth exists |
| BlueSet.FullChain | legacy/src/ghostdag.rs:262-309 | when the depth exceeds the longest parent path the chain reaches a parentless block |
| BlockDag.ChildEdges | legacy/src/ghostdag.rs:362-367 | child lists are exactly the parent lists the other way round |
| BlockDag.DagIsAcyclic | legacy/src/ghostdag.rs:328-381 | a well-formed DAG has no cycle in either direction and no edge out of it |
| BlockDag.PastIffFuture | legacy/src/ghostdag.rs:150-187 | a is an ancestor of b exactly when b is a descendant of a |
| BlockDag.AnticoneSymmetric | legacy/src/ghostdag.rs:189-203 | the true anticone relation is symmetric |
| BlockDag.PastContains | legacy/src/ghostdag.rs:150-173 | a block's past strictly contains each parent's past, and the parent |
| BlockDag.PastSplit | legacy/src/ghostdag.rs:150-173 | and consists of nothing else |
| BlockDag.BoundedPastAndFuture | legacy/src/ghostdag.rs:450-508 | bounded past and future are subsets of the true ones, each exact or at least bound large, both exact for a bound of at least the number of blocks |
| BlockDag.BoundedVisits | legacy/src/ghostdag.rs:450-508 | bounded past and future are found from at most bound + 1 blocks, and bound zero finds nothing |
| BlockDag.BoundedAnticoneSound | legacy/src/ghostdag.rs:414-432 | for a nonzero bound the bounded anticone contains the true one, and equals it for a large one |
| BlockDag.BoundedAnticoneSymmetric | legacy/src/ghostdag.rs:414-432 | for a large bound the bounded anticone is symmetric |
| BlockDag.BoundedCheckSound | legacy/src/ghostdag.rs:434-448 | a positive bounded check is right for every nonzero bound; with a large bound the check decides k-clusters |
| BlockDag.SubCluster | legacy/src/ghostdag.rs:211-219 | subsets of k-clusters are k-clusters |
| BlockDag.WideAnticoneSound | legacy/src/ghostdag.rs:175-203 | the unbounded anticone contains the true one and equals it iff all descendants are direct children |
| BlockDag.WideCheckSound | legacy/src/ghostdag.rs:205-219 | a positive unbounded check is right |
| BlockDag.InsertDoes | legacy/src/ghostdag.rs:351-367 | insertion adds one node and, to each parent, the new hash as often as the parent is mentioned |
| BlockDag.InsertKeepsWellFormed | legacy/src/ghostdag.rs:339-367 | inserting a new block with known parents keeps keys, acyclicity and the exact child index |
| BlockDag.InsertKeepsPast | legacy/src/ghostdag.rs:351-367 | insertion changes no earlier block's past |
| BlockDag.SingletonWellFormed | legacy/src/ghostdag.rs:124-148 | the genesis DAG is well formed |
| BlockDag.TipAbove | legacy/src/ghostdag.rs:384-395 | every block is a tip or an ancestor of one |
| BlockDag.SomeTipListed | legacy/src/ghostdag.rs:384-395 | the recomputed tip list is not empty |
| BlockDag.BlueScoreCounts | legacy/src/ghostdag.rs:221-226 | the blue score is the number of ancestors that are blue |
| BlockDag.BlueScoreOneMore | legacy/src/ghostdag.rs:221-226 | without blue blocks every score is zero, and one more blue block raises exactly its descendants' scores, by one |
| BlockDag.SingleParentScore | legacy/src/ghostdag.rs:221-226 | a block with a single parent scores what the parent scores, plus one iff the parent is blue |
| BlockDag.BlueScoreGrows | legacy/src/ghostdag.rs:221-226 | blue score never falls from parent to child, and rises when the parent is blue |
| BlockDag.BestTipIsBestBlock | legacy/src/ghostdag.rs:228-247 | the chosen tip has the highest blue score of all blocks, not only of the tips |
| BlockDag.BestTipCounts | legacy/src/ghostdag.rs:228-247 | the best tip is the first listed tip with the most blue ancestors |
| Colouring.GreedyCluster | legacy/src/ghostdag.rs:311-320 | if the greedy loop added anything the result is a true k-cluster; the result is one exactly when the start was |
| Colouring.GreedyMaximal | legacy/src/ghostdag.rs:311-320 | with a bound of at least the number of blocks, no left-out block of the tip's anticone could be added to the result |
| Colouring.BlueSetDichotomy | legacy/src/ghostdag.rs:256-325 | every blue set is a true k-cluster or exactly the chosen parent's blue set plus the tip |
| Colouring.UncheckedInsertion | legacy/src/ghostdag.rs:308-309 | a set with a block added is a k-cluster iff the set is one and the block is in it already or has room in it |
| Colouring.BlueSetClusterStep | legacy/src/ghostdag.rs:300-322 | a blue set is a k-cluster iff the chosen parent's blue set is one and inserting the tip does no harm to it |
| Colouring.BlueSetHasTrace | legacy/src/ghostdag.rs:256-325 | every blue set has a trace: the insertions down its chain of chosen parents |
| Colouring.BlueSetClusterIff | legacy/src/ghostdag.rs:256-325 | for every trace, the blue set is a k-cluster iff no insertion of the trace did harm |
| Colouring.BlueInDag | legacy/src/ghostdag.rs:256-325 | blue sets lie inside the DAG and hold the tip |
| Colouring.VisitedRedundant | legacy/src/ghostdag.rs:262-267 | on every DAG the visited guard is redundant: same blue sets as with no visited blocks |
| Colouring.DepthExceedsPaths | legacy/src/ghostdag.rs:249-253 | a depth of at least the number of blocks exceeds every parent path |
| Colouring.BlueSetReachesRoot | legacy/src/ghostdag.rs:262-309 | with such a depth the blue set holds a chain of chosen parents down to a parentless block |
| DagRuns.AcceptedIff | legacy/src/ghostdag.rs:333-349 | a block is accepted iff it is new, its parents are known and it meets its difficulty |
| DagRuns.VerdictIff | legacy/src/ghostdag.rs:333-349 | a known block is a duplicate whatever else holds; of a new one the first missing parent is reported, and the difficulty only if none is missing |
| DagRuns.StepKeepsInvariant | legacy/src/ghostdag.rs:328-381 | every addition, accepted or rejected, keeps the invariant |
| DagRuns.RunKeepsInvariant | legacy/src/ghostdag.rs:328-381 | the invariant holds in every state of every run from genesis |
| DagRuns.ReachableStates | legacy/src/ghostdag.rs:328-395 | in every reachable state: acyclic, parent-closed, children mirror parents with multiplicity, tips are exactly the childless blocks and not empty, blue blocks lie inside the DAG |
| DagRuns.BlueInside | legacy/src/ghostdag.rs:403-407 | blocks minus blue blocks is the number of red blocks, so the subtraction never underflows |
| DagRuns.ReachableBlueSet | legacy/src/ghostdag.rs:373-377 | in every reachable state the stored blue set is a k-cluster or a chosen parent's blue set plus a tip |
| DagRuns.ReachableClusterIff | legacy/src/ghostdag.rs:373-377 | in every reachable state the stored blue set is a k-cluster iff no insertion of its trace did harm |
| DagRuns.ReachableChain | legacy/src/ghostdag.rs:373-377 | while no parent path from a tip has as many edges as the depth limit, the stored blue set holds a chosen chain from a tip to a root |
| DagRuns.PastIsFinal | legacy/src/ghostdag.rs:328-381 | blocks are never dropped and a block's past never changes again, between any two states of a run |
| GhostDag.GhostDAG.constructor | legacy/src/ghostdag.rs:124-148 | the initial object is the initial state |
| GhostDag.GhostDAG.ComputePast | legacy/src/ghostdag.rs:150-173 | terminates with duplicates in the queue and returns exactly the strict ancestors |
| GhostDag.GhostDAG.ComputeFuture | legacy/src/ghostdag.rs:175-187 | exactly the direct children |
| GhostDag.GhostDAG.ComputeAnticone | legacy/src/ghostdag.rs:189-203 | the over-approximating anticone |
| GhostDag.GhostDAG.AnticoneSize | legacy/src/ghostdag.rs:205-209 | its size inside a subset |
| GhostDag.GhostDAG.CheckKCluster | legacy/src/ghostdag.rs:211-219 | the answer in both directions, and that a positive one means a true k-cluster |
| GhostDag.GhostDAG.ComputeBlueScore | legacy/src/ghostdag.rs:221-226 | the number of ancestors that are blue |
| GhostDag.GhostDAG.SelectBestTip | legacy/src/ghostdag.rs:228-247 | the first listed tip with the most blue ancestors, none iff there is no tip, and no block of the DAG has more |
| GhostDag.GhostDAG.ComputePastBounded | legacy/src/ghostdag.rs:450-478 | the loop computes the bounded past |
| GhostDag.GhostDAG.ComputeFutureBounded | legacy/src/ghostdag.rs:480-508 | the loop computes the bounded future |
| GhostDag.GhostDAG.ComputeAnticoneBounded | legacy/src/ghostdag.rs:414-432 | the bounded anticone, empty for bound zero |
| GhostDag.GhostDAG.CheckKClusterBounded | legacy/src/ghostdag.rs:434-448 | the bounded check, true for bound zero |
| GhostDag.GhostDAG.ComputeBlueSet | legacy/src/ghostdag.rs:249-253 | a blue set for depth 1000 and nothing visited |
| GhostDag.GhostDAG.ComputeBlueSetBounded | legacy/src/ghostdag.rs:255-325 | whatever it returns, for any iteration order, is a blue set in the sense of the relation |
| GhostDag.GhostDAG.ChooseParent | legacy/src/ghostdag.rs:280-298 | a parent whose computed blue set is at least as large as every other parent's and strictly larger than every earlier one's |
| GhostDag.GhostDAG.AddFromAnticone | legacy/src/ghostdag.rs:311-320 | the greedy loop over the bounded anticone |
| GhostDag.GhostDAG.AddBlock | legacy/src/ghostdag.rs:327-381 | one step of the state machine with the right verdict; a rejected block changes nothing |
| GhostDag.GhostDAG.Recolour | legacy/src/ghostdag.rs:373-377 | the new blue set is one of the best tip under the old one |
| GhostDag.GhostDAG.Accept | legacy/src/ghostdag.rs:351-377 | insertion, new tips, and a blue set from a best tip |
| GhostDag.GhostDAG.InsertNode | legacy/src/ghostdag.rs:351-367 | the loop over the parents gives the inserted DAG |
| GhostDag.GhostDAG.UpdateTips | legacy/src/ghostdag.rs:383-395 | the tips list every childless block once |
| GhostDag.GhostDAG.GetStateSummary | legacy/src/ghostdag.rs:397-412 | the counts, with a red count that is the size of the red set |
| LongestChain.ZeroAddsNothing | legacy/src/ghostdag.rs:308-320 | with k = 0 the loop never adds a block, on any DAG and for any bound |
| LongestChain.ZeroBlueSetIsLongest | legacy/src/ghostdag.rs:256-325 | with k = 0 a blue set has more than n members iff a parent path of n edges starts at the tip: the chain of chosen parents is a longest one, for every iteration order |
| DagExamples.JoinTakesLongBranch | legacy/src/ghostdag.rs:280-309 | with k = 0 every blue set of a block joining two branches is the longer branch and the block, though the shorter one is listed first |
| DagExamples.JoinExists | legacy/src/ghostdag.rs:351-367 | such a DAG is built by insertions |
| DagExamples.BlueSetNotAlwaysCluster | legacy/src/ghostdag.rs:308-309 | with k = 1 no blue set of the fork's long tip is a k-cluster |
| DagExamples.RunStoresNoCluster | legacy/src/ghostdag.rs:328-381 | with k = 1 every run that adds the fork's blocks on genesis stores a blue set that is no 1-cluster |
| DagExamples.AddFork | legacy/src/ghostdag.rs:328-381 | adding those blocks to the object, over four distinct hashes, leads there |
| DagExamples.WideAnticoneNotExact | legacy/src/ghostdag.rs:175-203 | on a line of three the unbounded anticone of the first block holds the third |
| KademliaIds.LexTotal | src/mesh.rs:929-936 | byte-wise comparison is total and strict |
| KademliaIds.LexTransitive | src/mesh.rs:929-936 | and transitive |
| KademliaIds.DistanceInjective | src/mesh.rs:929-936 | different ids are at different distances from any target |
| KademliaIds.LexIsNumber | src/mesh.rs:929-936 | byte-wise order is the order of the big-endian numbers |
| KademliaIds.ZeroDistanceIff | src/mesh.rs:929-936 | only an id itself is at distance zero |
| Bits.XorBitAt | src/mesh.rs:915 | exclusive or has exactly the bits at which the numbers differ |
| KademliaIds.BucketIndex | src/mesh.rs:912-921 | the bucket number is below 256 |
| KademliaIds.PrefixAndBucket | src/mesh.rs:912-921 | common prefix and bucket number have the same byte and mirrored bits |
| KademliaIds.SameBucketIff | src/mesh.rs:912-921 | two non-local ids share a bucket iff they share the common-prefix length with the local id |
| KademliaIds.BucketMatesAreCloser | src/mesh.rs:912-936 | different ids of one bucket are strictly closer to each other than either is to the local id |
| Selection.SmallestUnique | src/mesh.rs:929-938 | the count smallest in ascending order are unique, so the sorting algorithm does not matter |
| Selection.TakeIsSmallest | src/mesh.rs:938 | the first entries of the sorted list are the smallest |
| Kademlia.AddedKeepsInvariant | src/mesh.rs:891-910 | adding keeps ids unique, peers in their own bucket, and at most 20 to a bucket |
| Kademlia.BuildInvariant | src/mesh.rs:891-910 | so does any sequence of additions |
| Kademlia.BuildHolds | src/mesh.rs:891-910 | after any history a bucket holds, in order, the first 20 different ids added to it, each with its latest data |
| Kademlia.StoredUnique | src/mesh.rs:891-910 | ids are unique across all buckets |
| Kademlia.ClosestByNumber | src/mesh.rs:923-939 | the listed peers are stored ones at strictly increasing XOR numbers, and every one left out is farther than every one listed |
| Kademlia.TargetComesFirst | src/mesh.rs:923-939 | a stored peer with the target's id comes first for every count above zero |
| Kademlia.ClosestUnique | src/mesh.rs:923-939 | the lookup's answer depends on the stored peers alone |
| Kademlia.KademliaTable.constructor | src/mesh.rs:878-889 | an empty table |
| Kademlia.KademliaTable.AddPeer | src/mesh.rs:891-910 | the table becomes that of the longer history; other buckets stay |
| Kademlia.KademliaTable.TouchBucket | src/mesh.rs:895-909 | refreshes, appends while there is room, or drops |
| Kademlia.KademliaTable.BucketOf | src/mesh.rs:912-921 | the loop computes the bucket number |
| Kademlia.KademliaTable.GetAllPeers | src/mesh.rs:941-946 | every stored peer once |
| Kademlia.KademliaTable.FindClosest | src/mesh.rs:923-939 | min(count, total) stored peers in strictly increasing XOR number, every one left out having a larger number |
| Kademlia.KademliaTable.CompareDistance | src/mesh.rs:929-936 | decides which of two peers has the smaller XOR number |
| SynthFs.AncestorsExist | src/synth.rs:75-113 | every ancestor path of a node is a node |
| SynthFs.PutKeepsConsistent | src/synth.rs:142-153 | storing and linking keeps listings equal to the children, also over an existing directory |
| SynthFs.MakeDirsKeepsConsistent | src/synth.rs:75-113 | creating directories keeps that too and adds exactly the missing prefixes |
| SynthFs.MakeDirsAddsDirectories | src/synth.rs:80-113 | creating directories adds only directories of mode 755 and changes nothing of the nodes there but growing child lists |
| SynthFs.CreateChangesOneLeaf | src/synth.rs:119-156 | creating a file changes what one path holds and no other file |
| SynthFs.NextKeepsInvariant | src/synth.rs:72-200 | every locked section keeps the invariant, with other threads between the two halves of a creation |
| SynthFs.RunInvariant | src/synth.rs:72-200 | it holds in every state of every interleaving |
| SynthFs.ListingsAlwaysExact | src/synth.rs:215-225 | in every such state listings are duplicate-free and exactly the children's names, and all ancestors exist |
| SynthFs.RunLeaves | src/synth.rs:72-269 | in every interleaving each file holds what the last finished creation of it or the last write let through left there, whatever directories were made on the way |
| SynthFs.ReadAfterCreate | src/synth.rs:119-244 | a created file reads back as its content, a control file as its handler |
| SynthFs.ReadAfterWrite | src/synth.rs:228-269 | an accepted write reads back, a refused one changes no answer, and no write is seen at another path |
| SynthFs.RunReads | src/synth.rs:72-269 | in every interleaving a read answers with what the history of creations and writes left |
| SynthFs.PathsPersist | src/synth.rs:72-200 | paths never disappear |
| SynthFs.SyntheticFilesystem.CreateDirectory | src/synth.rs:72-116 | the component loop adds exactly the missing prefixes |
| SynthFs.SyntheticFilesystem.PutNode | src/synth.rs:142-153 | the second locked section of a creation |
| SynthFs.SyntheticFilesystem.CreateFile | src/synth.rs:119-156 | the whole new state, and that only this path's content changed |
| SynthFs.SyntheticFilesystem.CreateControlFile | src/synth.rs:159-200 | the same for a control file |
| SynthFs.SyntheticFilesystem.ListDirectory | src/synth.rs:215-225 | exactly the children's names once each; empty for files and missing paths |
| SynthFs.SyntheticFilesystem.ReadFile | src/synth.rs:228-244 | content, handler or not found |
| SynthFs.SyntheticFilesystem.WriteFile | src/synth.rs:247-269 | writable files change, everything else stays, with the right answer |
| Text.LossyOfText | legacy/src/function_files.rs:231 | decoding leaves valid text as it is |
| Text.LossyIsText | legacy/src/function_files.rs:231 | decoding always gives valid text |
| Text.LossyOfIllFormed | legacy/src/function_files.rs:231 | behind valid text an ill-formed unit becomes one replacement character |
| Text.EncodeIsUnit | legacy/src/function_files.rs:231 | the encoding of every code point is one character |
| Text.TextIsEncoded | legacy/src/function_files.rs:231 | every valid text is the encoding of code points |
| Text.LinesOfUnlines | legacy/src/function_files.rs:234-238 | splitting newline-terminated output gives the lines back, less one carriage return each |
| Text.LinesOfOpenText | legacy/src/function_files.rs:234 | bytes behind the last newline are a line of their own, kept as they are |
| Text.RoundTripIff | legacy/src/function_files.rs:234-238 | the round trip is exact iff no line has a newline or ends in a carriage return |
| Text.LinesAreText | legacy/src/function_files.rs:234 | the lines of a text are texts |
| LineFunctions.MapFailsIff | legacy/src/function_files.rs:234-238 | map fails iff the function fails on some line |
| LineFunctions.MapFirstError | legacy/src/function_files.rs:235 | and then with the error of the first such line |
| LineFunctions.FilterFailsIff | legacy/src/function_files.rs:266 | filter fails iff the predicate fails on some line |
| LineFunctions.FilterFirstError | legacy/src/function_files.rs:266 | and then with the error of the first such line |
| LineFunctions.MapOutputLines | legacy/src/function_files.rs:229-241 | a map's output is read back as exactly the lines it wrote |
| LineFunctions.MapFusion | legacy/src/function_files.rs:207-241 | map f then map g is map of the composition when f gives single lines of text |
| LineFunctions.FilterOutputLines | legacy/src/function_files.rs:260-275 | a filter's output is read back as the kept lines, stripped |
| LineFunctions.FilterTwiceIff | legacy/src/function_files.rs:260-275 | filtering twice equals filtering once iff no kept line ends in a carriage return |
| LineFunctions.FilterTwiceDiffers | legacy/src/function_files.rs:260-275 | inputs on which it does not |
| FunctionFiles.MapNodesFuse | legacy/src/function_files.rs:207-241 | map fusion for nodes of a tree that may contain memo nodes, errors included when the first map succeeds |
| FunctionFiles.FilterNodeTwiceIff | legacy/src/function_files.rs:260-275 | a filter node applied to its own output changes nothing iff no kept line ends in a carriage return, memo nodes or not |
| FunctionFiles.MapOfOpenLine | legacy/src/function_files.rs:231-240 | on text without a newline a map node gives the function's output and a newline, or its error |
| FunctionFiles.FilterOfOpenLine | legacy/src/function_files.rs:264-274 | on such text a filter node gives the line and a newline for the answer true, else nothing, or the error |
| FunctionFiles.ReduceOfOpenLine | legacy/src/function_files.rs:297-306 | on such text a reduce node applies the function to the initial value, a newline and the line |
| FunctionFiles.ReduceFolds | legacy/src/function_files.rs:300-304 | each further line is put behind what the lines before gave; errors end it |
| FunctionFiles.SliceIs | legacy/src/function_files.rs:149-151 | the clamped slice has the bytes from the offset on, as many as asked for and there |
| FunctionFiles.Apply | legacy/src/function_files.rs:207-346 | evaluating a tree with shared memo nodes gives the unmemoised function's answer and keeps every cache right and whole |
| FunctionFiles.ApplyComposed | legacy/src/function_files.rs:207-210 | the second function of the first's output, or the first error |
| FunctionFiles.ApplyMap | legacy/src/function_files.rs:229-241 | the loop over lines with its accumulator |
| FunctionFiles.ApplyFilter | legacy/src/function_files.rs:260-275 | the loop that keeps accepted lines |
| FunctionFiles.ApplyReduce | legacy/src/function_files.rs:296-307 | the fold over lines |
| FunctionFiles.ApplyMemo | legacy/src/function_files.rs:331-341 | answers from the cache or computes and stores; failures are not stored |
| FunctionFiles.MemoizedFunction.constructor | legacy/src/function_files.rs:320-327 | an empty cache, which is right |
| FunctionFiles.FunctionFileInstance.constructor | legacy/src/function_files.rs:117-125 | a new file is dirty |
| FunctionFiles.FunctionFileInstance.Write | legacy/src/function_files.rs:128-134 | the last input is what was written, the cache is dropped, the length is returned as a 32-bit number |
| FunctionFiles.FunctionFileInstance.Read | legacy/src/function_files.rs:137-155 | after any history: the clamped slice of the unmemoised function of the last input, or its error with the file left dirty |
| FileOperations.NothingBeyond | legacy/src/file_operations.rs:115-123 | positions past the length were never written |
| FileOperations.DisjointWritesCommute | legacy/src/file_operations.rs:111-127 | writes that do not overlap can be exchanged anywhere in a history |
| FileOperations.WriteHolds | legacy/src/file_operations.rs:111-127 | overwriting and zero padding gives the content of the longer history |
| FileOperations.NormalFile.Write | legacy/src/file_operations.rs:111-127 | after any history every byte is that of the last write over it, zero in gaps |
| FileOperations.NormalFile.Read | legacy/src/file_operations.rs:104-109 | the clamped slice, each byte the last one written there |
| FileOperations.SyntheticFile.Write | legacy/src/file_operations.rs:177-181 | sets the input and drops the cached output |
| FileOperations.SyntheticFile.Read | legacy/src/file_operations.rs:159-175 | a slice of the function of the last input, whatever was cached |
| Conv2d.Index32IsFlat | sycl_wrapper/sycl_ffi.cpp:411-425 | inside a volume that 32 bits can number, the wrapping index arithmetic is exact and in range |
| Conv2d.UnflatOfFlat | sycl_wrapper/sycl_ffi.cpp:423-425 | an index determines its position |
| Conv2d.FlatOfUnflat | sycl_wrapper/sycl_ffi.cpp:423-425 | every index below the volume is that of a position in range |
| Conv2d.ItemsAreCells | sycl_wrapper/sycl_ffi.cpp:395-426 | different work items write different cells, all in range |
| Conv2d.CellsAreItems | sycl_wrapper/sycl_ffi.cpp:395-426 | every cell is written by the item its index encodes |
| Conv2d.OutSizeExact | sycl_wrapper/sycl_ffi.cpp:391-392 | the unsigned output size is exact when the kernel fits the padded size, and zero in the one case in which adding one wraps |
| Conv2d.OutSizeIff | sycl_wrapper/sycl_ffi.cpp:391-392 | except in that case the output has exactly the coordinates at which the kernel lies inside the padded input |
| Conv2d.CoordTests | sycl_wrapper/sycl_ffi.cpp:407-410 | the unsigned difference read as a signed number passes the bounds test iff the true coordinate is inside, and then it is that one |
| Conv2d.HoldsSome | sycl_wrapper/sycl_ffi.cpp:387-389 | every buffer of the right size holds a tensor |
| Conv2d.ConvIsLinear | sycl_wrapper/sycl_ffi.cpp:402-421 | the convolution is additive and homogeneous in the weights |
| Conv2d.ConvOfImpulse | sycl_wrapper/sycl_ffi.cpp:404-419 | a single weight of one puts the input cell under it at every output position of its channel, zero for padding and other channels |
| Conv2d.ReadCell | sycl_wrapper/sycl_ffi.cpp:411-417 | reads in range, and the cell of that position |
| Conv2d.Inside | sycl_wrapper/sycl_ffi.cpp:410 | the bounds test with the size cast to signed is the test for being inside |
| Conv2d.AddTerm | sycl_wrapper/sycl_ffi.cpp:407-418 | the bounds test skips exactly the padding, so what is added is the product over the padded input |
| Conv2d.Accumulate | sycl_wrapper/sycl_ffi.cpp:402-421 | the loop nest sums to the convolution at the item's position |
| Conv2d.RunItem | sycl_wrapper/sycl_ffi.cpp:396-427 | one item writes one cell, with the convolution at its position |
| Conv2d.Convolve | sycl_wrapper/sycl_ffi.cpp:394-427 | in whatever order the items run, the output is the convolution over the zero-padded input |
| RateLimiting.StepKeepsOwn | legacy/src/auth.rs:549-569 | a request keeps the invariant of its own address |
| RateLimiting.StepKeepsOther | legacy/src/auth.rs:549-569 | and of every other address |
| RateLimiting.RunKeepsInvariant | legacy/src/auth.rs:549-569 | the invariant holds over every run with a non-decreasing clock |
| RateLimiting.AdmitsBelowTwice | legacy/src/auth.rs:549-569 | at most 2 * max_requests - 1 admitted from one address in any closed interval no longer than the window |
| RateLimiting.RefusedOnlyWhenFull | legacy/src/auth.rs:562-563 | a request is refused only if max_requests of its address were admitted in the last window_secs |
| RateLimiting.WindowHoldsAtMost | legacy/src/auth.rs:555-568 | at most max_requests in each counting window, at every later time |
| RateLimiting.AddressesIndependent | legacy/src/auth.rs:555 | an address's window and admitted requests are those of a run of its own requests alone |
| RateLimiting.ZeroLimitAdmits | legacy/src/auth.rs:557-561 | with a limit of zero the second window admits a request |
| RateLimiting.NeverTwiceIff | legacy/src/auth.rs:549-569 | the bound of 2 * max_requests holds over all runs iff the limit is positive |
| RateLimiting.BoundIsSharp | legacy/src/auth.rs:549-569 | for every positive limit and window a run attains 2 * max_requests - 1 |
| RateLimiting.RateLimiter.Check | legacy/src/auth.rs:549-569 | the object is the state after its requests so far, and answers as specified |
| Acl.HasIff | legacy/src/auth.rs:35-37 | permissions suffice iff every requested bit is granted |
| Acl.MissingBitRefuses | legacy/src/auth.rs:35-37 | one missing bit refuses |
| Acl.LastMatchIff | legacy/src/auth.rs:312-317 | the last entry about the user, none iff there is none |
| Acl.BestOfLongest | legacy/src/auth.rs:310-319 | the decision is that of the longest non-empty prefix with an entry about the user |
| Acl.BestOfNone | legacy/src/auth.rs:321-325 | without such a prefix nothing is granted |
| Acl.ShorterPathsIrrelevant | legacy/src/auth.rs:310-319 | entries of shorter paths and of other paths never change the decision |
| Acl.LatestGrantDecides | legacy/src/auth.rs:450-470 | an added entry decides alone below its path unless a longer path speaks |
| Acl.WordsAreRefused | legacy/src/validation.rs:49-51 | a name with one of the refused words anywhere in it is refused |
| Acl.WildcardNeverAdded | legacy/src/validation.rs:144-176 | an entry that passes validation is never for the wildcard |
| Acl.NamedDecides | legacy/src/auth.rs:298-326 | in a table built by additions the deciding entry names the user |
| Acl.AuthService.AddAcl | legacy/src/auth.rs:450-472 | appends to the path's entries if path and principal are valid, else changes nothing |
| Acl.AuthService.CheckAcl | legacy/src/auth.rs:298-326 | for every iteration order of the map the answer is that of the reference decision |
| Difficulty.MeetsDifficulty | legacy/src/global_event_chain.rs:143-161 | the loop and mask decide whether the big-endian number is below 2^(256 - d), and when they read past the end |
| Difficulty.TopBits | legacy/src/global_event_chain.rs:153-157 | masking the top bits is comparing with a power of two |
| BigEndian.ValueBetween | legacy/src/global_event_chain.rs:147-151 | the first bytes fix the number up to the weight of the rest |
| Difficulty.MeetsLower | legacy/src/global_event_chain.rs:143-161 | meeting a difficulty implies meeting every lower one |
| Difficulty.MeetsEverythingIff | legacy/src/global_event_chain.rs:135-161 | exactly the hash of zeros meets every difficulty |
| EventChain.LastOfTwice | legacy/src/global_event_chain.rs:275-279 | pruning after each addition is pruning once at the end |
| EventChain.TickIsCreate | legacy/src/global_event_chain.rs:333-402 | the timer's own block creation, without parent check, does what create_block does |
| EventChain.MiningStopsAtOnce | legacy/src/global_event_chain.rs:135-140 | the hash that a new block starts with meets the difficulty of block creation |
| EventChain.AcceptKeepsChain | legacy/src/global_event_chain.rs:261-287 | an accepted block keeps the pruned chain linked, ending at the tip |
| EventChain.AcceptKeepsInvariant | legacy/src/global_event_chain.rs:261-305 | accepting a block keeps the invariant |
| EventChain.StepKeepsInvariant | legacy/src/global_event_chain.rs:201-305 | so does every submit, creation, tick and network block |
| EventChain.RunKeepsInvariant | legacy/src/global_event_chain.rs:201-402 | in every run: the chain is the last at most 100 accepted blocks, linked, ending at the tip; the cache is the last at most 1000 accepted events; submitted events are those of local blocks in order followed by the buffer; local blocks carry one to ten events |
| EventChain.RunFacts | legacy/src/global_event_chain.rs:201-402 | the chain length, links, bounds, and fewer than ten submitted events outside the accepted blocks |
| EventChain.RecentIsSubmitted | legacy/src/global_event_chain.rs:289-302 | without network blocks the cache is the end of the submissions, up to the buffer |
| EventChain.GlobalEventChain.constructor | legacy/src/global_event_chain.rs:166-198 | genesis alone |
| EventChain.GlobalEventChain.SubmitEvent | legacy/src/global_event_chain.rs:201-214 | one submit step, creating a block at ten buffered events |
| EventChain.GlobalEventChain.CreateBlock | legacy/src/global_event_chain.rs:217-258 | the whole buffer becomes a block on the tip; nothing for an empty buffer |
| EventChain.GlobalEventChain.AddBlock | legacy/src/global_event_chain.rs:261-305 | append, prune, tip and cache for the right parent; nothing for a wrong one |
| EventChain.GlobalEventChain.ProcessTick | legacy/src/global_event_chain.rs:333-402 | one tick of the timer |
| EventChain.GlobalEventChain.HandleNetworkBlock | legacy/src/global_event_chain.rs:451-461 | undecodable data and wrong parents change nothing |
| EventChain.GlobalEventChain.GetHeight | legacy/src/global_event_chain.rs:412-414 | one less than the number of kept blocks |
| EventChain.GlobalEventChain.GetRecentEvents | legacy/src/global_event_chain.rs:417-426 | the last accepted events, at most count and at most 1000 |
| EventChain.GlobalEventChain.GetEventWindow | legacy/src/global_event_chain.rs:445-448 | the window always starts at zero |

## Left out

- Locks, async scheduling and deadlock: operations are atomic, except the two sections of a file creation in `SynthFs`.
- Reads and writes of a lazy cache that overlap in time: a write between evaluation and store can leave a stale output.
- SHA-256, signatures, password hashing and serialization: hashes are values that are only compared; the node id in `KademliaTable` and the genesis hash are parameters.
- DagRuns.AcceptedIff: the number of leading zero bytes a difficulty asks for is a parameter, because the program computes it with a floating-point logarithm.
- EventChain.GlobalEventChain.SubmitEvent: does not model another task between pushing the event and creating the block, nor the event stream to applications and the message to the mesh.
- EventChain.GlobalEventChain.CreateBlock: mining is not run, since the zero hash it starts from meets the difficulty.
- Mining loops and the mesh transport: the first start from a hash that passes, the second is input and output.
- Conv2d.Convolve: sums are of real numbers, so rounding is not modelled, and the buffers are distinct; the items run one after the other, in any order, not at the same time.
- RateLimiting.RateLimiter.Check: clock readings are parameters, and the addition of the window to the time does not wrap.
- Acl.AuthService.AddAcl: the reason of a refusal is not told apart, since the caller only sees that there was an error.
- Acl.AuthService.CheckAcl: path lengths are counted in characters, which orders the prefixes of one resource as bytes do.
- Kademlia.KademliaTable.FindClosest: the library sort is modelled as an insertion sort; `SmallestUnique` shows that any correct sort gives the same list.
- SynthFs.SyntheticFilesystem.ReadFile: the code behind a control file is named, not run; time stamps of nodes are dropped, and paths are absolute with normal components and valid text.
- FunctionFiles.Apply: base functions (upper case, hash, base64) are any functions from bytes to bytes or an error.
- FileOperations.NormalFile.Write: the 64-bit offset does not overflow when the length is added.
- Translator files: reading one gives a fixed description and writing to one stores nothing; composing two checks their type names and then calls one after the other, as `FunctionFiles.Composed` does.
- Function registries and the setters of permission flags: each is one map or bit operation.
- Path event filters and chain statistics: they select from the cache and the chain that `EventChain` describes and change neither.
- Pattern matching of capabilities: its branch for `/*` disagrees with the repository's own test.
- QUIC, mDNS, FUSE, mounting, process control, command line, configuration, dashboards and metrics: input and output.
