# Verified models of wandrounik/algorithms

wandrounik/algorithms is a set of small C++ algorithm demos. This project models the algorithmic cores of fourteen of them in Dafny and proves properties of the models:

- **Bipartite matching.** Kuhn–Munkres (Hungarian) weighted matching, Hopcroft–Karp and Gale–Shapley stable marriage.
- **Maximum flow.** Ford–Fulkerson with a depth-first search and Edmonds–Karp with a breadth-first search, both over a residual matrix.
- **Search trees and heaps.** A B-tree, an AVL tree, a red-black tree, a splay tree, a Cartesian tree (treap) and a fixed-capacity max-heap.
- **Range structures.** A lazy segment tree and a persistent sum segment tree.
- **A spanning tree.** The depth-first spanning-tree builder of `super_tree.cpp`.

Each source file's style is kept in the model:

- Code that updates arrays, vectors or fields in place becomes a Dafny `class`. Its fields are `seq`s or tree values, its methods carry `modifies` clauses, and its loops carry invariants. Examples are the matching and flow graphs, the heap, the B-tree and the tree classes.
- Code that is structural recursion over links becomes functions over tree datatypes, with lemmas about them. Examples are treap split and merge, AVL rotations, persistent set and segment-tree queries.
- Integers are unbounded. The `INT_MAX` and `INT_MIN` sentinels the source relies on are kept as explicit constants.

Where the code as written does something its authors evidently did not intend, the model keeps that code and exhibits the defect. It then proves the intended property of a corrected version; see "## Findings".

Modules and files:

| file | module | models |
|---|---|---|
| sums.dfy, matching.dfy, layers.dfy | Sums, Matching, Layers | shared facts: sums over sequences, partner arrays, BFS levels |
| hungarian.dfy | Hungarian | bipartite_matching/hungarian.cpp |
| hopcroft_karp.dfy | HopcroftKarp | bipartite_matching/hopcroft_karp.cpp |
| gale_shapley.dfy | GaleShapley | bipartite_matching/galey_shapley.cpp |
| residual.dfy, ford_fulkerson.dfy | Residual, FordFulkerson | max_flow/ford_fulkerson.cpp |
| edmonds_karp_spec.dfy, edmonds_karp.dfy | EdmondsKarpSpec, EdmondsKarp | max_flow/edmonds_karp.cpp |
| btree.dfy | BTree | btree.cpp |
| avl_tree.dfy | AVL | avl_tree.cpp |
| red_black_tree.dfy | RedBlack | red_black_tree.cpp |
| splay_tree.dfy | Splay, SplayLinks | splay_tree.cpp |
| cartesian_tree.dfy | Cartesian | cartesian_tree.cpp |
| max_heap.dfy | MaxHeap | max_heap.cpp |
| segment_tree.dfy | SegmentTree | segment_tree.cpp |
| persistent_tree.dfy | PersistentTree | persistent_tree.cpp |
| super_tree.dfy | SuperTree | super_tree.cpp |

## Model

| member | source | states |
|---|---|---|
| Hungarian.Graph.constructor | bipartite_matching/hungarian.cpp:96-111 | All pairs start at -1 and potentialR at 0. potentialL[i] is the maximum of INT_MIN and row i, attained by some entry unless it is INT_MIN. Every edge therefore starts dual feasible. |
| Hungarian.WeightAtMostPotential | bipartite_matching/hungarian.cpp:113-140 | Under feasible potentials, the weight of any matching is at most the sum of its endpoints' potentials. |
| Hungarian.TightWeightEqualsPotential | bipartite_matching/hungarian.cpp:61-65 | When every matched edge is tight, the matching's weight equals its endpoints' potential sum. |
| Hungarian.Graph.Bfs | bipartite_matching/hungarian.cpp:17-54 | The result is true exactly when a free right vertex was marked. Levels are assigned as discoverer + 1, with free left vertices at 0. Every tight edge out of an expanded left vertex reaches a marked right vertex. Expansion proceeds in whole levels. On failure every levelled vertex was expanded. |
| Hungarian.Graph.DrainLevel | bipartite_matching/hungarian.cpp:28-50 | Draining one level keeps the search facts and leaves exactly the next level queued, one entry per newly levelled vertex. |
| Hungarian.Graph.DrainOne | bipartite_matching/hungarian.cpp:29-49 | One turn of the queue loop keeps the search facts, shrinks the level being drained by one, and queues exactly the vertices it newly levels. |
| Hungarian.Graph.Scan | bipartite_matching/hungarian.cpp:36-49 | Scanning one left vertex's row keeps the search facts. Each newly levelled vertex is queued exactly once. |
| Hungarian.Graph.Expand | bipartite_matching/hungarian.cpp:33-34 | Marking a levelled left vertex visited keeps the level facts. Its own edges are then the only ones still to be closed. |
| Hungarian.Graph.PopSeen | bipartite_matching/hungarian.cpp:30-33 | Dequeuing an already visited vertex only shrinks the level being drained. |
| Hungarian.Graph.PopFresh | bipartite_matching/hungarian.cpp:30-34 | Dequeuing a fresh vertex marks it and starts the scan of its row. |
| Hungarian.Graph.VisitSkip | bipartite_matching/hungarian.cpp:37 | A marked right vertex or a non-tight edge is skipped without breaking the scan state. |
| Hungarian.Graph.VisitFree | bipartite_matching/hungarian.cpp:38-42 | Reaching a free right vertex over a tight edge marks it and sets finished. |
| Hungarian.Graph.VisitMatched | bipartite_matching/hungarian.cpp:38-45 | Reaching a matched right vertex whose partner already has a level only marks the right vertex. |
| Hungarian.Graph.VisitLevel | bipartite_matching/hungarian.cpp:38-48 | Reaching a matched right vertex whose partner has no level gives the partner the current level + 1 and queues it. The number of unlevelled vertices drops by one. |
| Hungarian.Graph.MarkReach | bipartite_matching/hungarian.cpp:38-41 | After marking right vertex `to`, a free right vertex has been reached iff one had been reached before or `to` is free. |
| Layers.DrainPush | bipartite_matching/hungarian.cpp:45-47 | Queuing an unlevelled vertex at level d + 1 keeps the drain invariant. |
| Layers.DrainPop | bipartite_matching/hungarian.cpp:30-31 | The front of the queue during a drain is at level d. Popping it keeps the drain invariant. |
| Layers.LevelOne | bipartite_matching/hungarian.cpp:46 | Giving one unlevelled vertex a level lowers the unlevelled count by one. |
| Hungarian.Graph.Dfs | bipartite_matching/hungarian.cpp:56-70 | Entering a visited vertex returns false and changes nothing. Failure leaves the pairs unchanged. Success augments along a level-respecting path, keeps pairL and pairR consistent and commits only tight edges. The visited set only grows and includes `from`. |
| Hungarian.Graph.TightCommit | bipartite_matching/hungarian.cpp:61-65 | Committing a zero-slack edge keeps "every changed pair is tight". |
| Hungarian.Graph.Relink | bipartite_matching/hungarian.cpp:64-65 | The success branch of dfs sets pairL[from] = to and pairR[to] = from and nothing else. The augmentation facts and "every changed pair is tight" carry over to the new pair arrays. |
| Hungarian.Graph.MinFrontierSlack | bipartite_matching/hungarian.cpp:73-82 | delta is the least non-zero slack over visitedL × unvisitedR pairs, or the INT_MAX sentinel when there is none. It is positive under feasible potentials. |
| Hungarian.Graph.UpdatePotentials | bipartite_matching/hungarian.cpp:72-93 | delta is the smallest slack on the frontier, and it is positive. Visited left potentials drop by delta, visited right potentials rise by delta, and the rest are unchanged. Given the closure fact from Bfs, the potentials stay dual feasible. |
| Hungarian.Graph.AugmentAll | bipartite_matching/hungarian.cpp:122-127 | Running dfs from every free left vertex keeps the invariant. The matched count rises by exactly the returned number, and matched left vertices stay matched. |
| Hungarian.Graph.TotalWeight | bipartite_matching/hungarian.cpp:133-140 | The result is Σ costs[i][pairL[i]] over matched i. |
| Hungarian.Graph.Phase | bipartite_matching/hungarian.cpp:117-131 | One phase keeps the invariant and raises the matched count by exactly the number it returns. Matched left vertices stay matched. Left potentials never rise and right potentials never fall. |
| Hungarian.Graph.MaxMatching | bipartite_matching/hungarian.cpp:113-141 | The phase loop keeps the invariant and returns the matched weight. When it ends within the fuel, the matched count has grown by min(n, m). Matched vertices stay matched and the potentials move monotonically. |
| Matching.CommitFree | bipartite_matching/hungarian.cpp:63-66 | Pairing `from` with a free right vertex is an augmentation from `from` that keeps the partner arrays consistent. |
| Matching.CommitChain | bipartite_matching/hungarian.cpp:63-66 | An augmentation from the next-level partner extends to an augmentation from `from` once `from` takes that partner's right vertex. |
| Matching.MatchedCountsAgree | bipartite_matching/hungarian.cpp:115 | With consistent partner arrays, the left and right sides have the same number of matched vertices. |
| Matching.MatchedBoundBothSides | bipartite_matching/hungarian.cpp:115 | The matched count never exceeds either side's size, which is why the phase loop can stop at min(n, m). |
| Matching.CountAfterMatching | bipartite_matching/hungarian.cpp:124-125 | Matching one more left vertex, with all others keeping their state, raises the matched count by one. |
| Matching.MatchFree | bipartite_matching/galey_shapley.cpp:45-50 | Pairing a free man with a free woman keeps the pairs mutually consistent. |
| Matching.MatchTaken | bipartite_matching/galey_shapley.cpp:51-60 | A woman switching to a free man, with her old partner unpaired, keeps the pairs mutually consistent. |
| HopcroftKarp.AdjacencyMembership | bipartite_matching/hopcroft_karp.cpp:66-69 | to is in adjacency_list[i] exactly when some edge is (i+1, to+1). Every entry is a right vertex. |
| HopcroftKarp.Graph.constructor | bipartite_matching/hopcroft_karp.cpp:62-70 | All pairs start at -1. The adjacency lists are built from the 1-based edges as above. |
| HopcroftKarp.Graph.Bfs | bipartite_matching/hopcroft_karp.cpp:13-45 | Free left vertices get level 0 and matched ones -1. A level, once assigned, is the discoverer's + 1. The result is true iff an expanded vertex has an edge to a free right vertex. Every edge of an expanded vertex to a matched right vertex levels its partner. Expansion proceeds in whole levels. On failure every levelled vertex was expanded. |
| HopcroftKarp.Graph.DrainLevel | bipartite_matching/hopcroft_karp.cpp:26-42 | Draining one level keeps the search facts and queues exactly the newly levelled vertices. |
| HopcroftKarp.Graph.Scan | bipartite_matching/hopcroft_karp.cpp:31-41 | Scanning one adjacency list keeps the search facts. Each newly levelled vertex is queued once. |
| HopcroftKarp.Graph.Pop | bipartite_matching/hopcroft_karp.cpp:28-29 | Dequeuing a vertex of the current level starts the scan of its adjacency list. |
| HopcroftKarp.Graph.VisitFree | bipartite_matching/hopcroft_karp.cpp:32-34 | An edge to a free right vertex sets finished. |
| HopcroftKarp.Graph.ReachedStep | bipartite_matching/hopcroft_karp.cpp:32 | An edge to a matched right vertex does not change whether a free right vertex has been reached. |
| HopcroftKarp.Graph.VisitMatched | bipartite_matching/hopcroft_karp.cpp:37 | An edge to a vertex whose partner already has a level changes nothing. |
| HopcroftKarp.Graph.VisitLevel | bipartite_matching/hopcroft_karp.cpp:37-40 | An edge to a matched right vertex whose partner has no level gives the partner the current level + 1 and queues it. The number of unlevelled vertices drops by one. |
| HopcroftKarp.Graph.LevelPartner | bipartite_matching/hopcroft_karp.cpp:38 | Levelling the partner as discoverer + 1 keeps the level facts. |
| HopcroftKarp.Graph.Dfs | bipartite_matching/hopcroft_karp.cpp:47-59 | Entering a visited vertex returns false and changes nothing. Failure leaves the pairs unchanged. Success augments along a path through partners exactly one level deeper and keeps the pairs consistent, with every changed pair an edge of the graph. The visited set only grows. |
| HopcroftKarp.Graph.AugmentAll | bipartite_matching/hopcroft_karp.cpp:77-82 | The matched count rises by exactly the number of successful dfs calls. Matched left vertices stay matched. |
| HopcroftKarp.Graph.Solve | bipartite_matching/hopcroft_karp.cpp:72-85 | The counter equals the growth of the matched count, so on a fresh graph it is the number of matched left vertices. Matched vertices stay matched. When bfs reports no free right vertex, the alternating search from the free left vertices is exhausted. |
| GaleShapley.RankRow | bipartite_matching/galey_shapley.cpp:20-24 | The rank row inverts a woman's list: each listed man's rank is his position in it. |
| GaleShapley.RankTable | bipartite_matching/galey_shapley.cpp:21-25 | The table has one row per woman, each row as long as the men's side and inverting her list. |
| GaleShapley.EveryMan | bipartite_matching/galey_shapley.cpp:30-32 | The initial queue holds men 0 to n-1 in order, so every man is in it. |
| GaleShapley.RankOrder | bipartite_matching/galey_shapley.cpp:20-53 | For a complete list, a lower rank means listed earlier, in both directions, and list[rank[a]] == a. |
| GaleShapley.Graph.constructor | bipartite_matching/galey_shapley.cpp:14-26 | All men and women start unpaired, and the rank table inverts every woman's list. |
| GaleShapley.Graph.FreeManHasCandidate | bipartite_matching/galey_shapley.cpp:40 | With complete lists, a free man has not yet proposed to every woman, so next_candidate_idx indexes inside his list. |
| GaleShapley.Graph.Engage | bipartite_matching/galey_shapley.cpp:45-62 | A woman who is free, or ranks the proposer strictly better, taking him keeps the proposal invariant. Every woman a man has proposed to holds a partner she ranks no lower than him. |
| GaleShapley.Graph.AcceptFree | bipartite_matching/galey_shapley.cpp:45-50 | A free woman accepts. The pairs stay consistent and the proposal invariant holds with his index advanced. |
| GaleShapley.Graph.AcceptBetter | bipartite_matching/galey_shapley.cpp:53-61 | An engaged woman switches to a man she ranks strictly better and her old partner becomes free. The pairs stay consistent and the proposal invariant holds. |
| GaleShapley.Graph.Accept | bipartite_matching/galey_shapley.cpp:40-61 | A proposal the woman accepts advances the man's index by one and engages him to that woman. At most one other man, her previous partner, becomes free, and no other man's pair changes. Every engaged woman stays engaged to a man she ranks no worse, and the proposal invariant holds. |
| GaleShapley.Graph.Reject | bipartite_matching/galey_shapley.cpp:53-64 | A refused proposal only advances the man's index and keeps the invariant. |
| GaleShapley.Graph.Propose | bipartite_matching/galey_shapley.cpp:39-65 | The inner loop ends with the man engaged. Only his index advances. At most one other man is displaced, and he was engaged and is now free. Every engaged woman stays engaged, to a man she ranks no lower. |
| GaleShapley.Graph.QueueStep | bipartite_matching/galey_shapley.cpp:36-60 | Popping the man who just got engaged and requeuing the displaced man keeps "the queue holds exactly the free men, once each". |
| GaleShapley.Graph.StableAtEnd | bipartite_matching/galey_shapley.cpp:35-66 | When every man is engaged under the proposal invariant, no man and woman both prefer each other to their partners. |
| GaleShapley.Graph.Solve | bipartite_matching/galey_shapley.cpp:28-67 | With n men, n women, complete lists and everyone free, solve ends with every man and every woman paired and the matching stable. |
| GaleShapley.RemainingRaise | bipartite_matching/galey_shapley.cpp:40 | Advancing one man's index lowers the remaining-proposals measure by the same amount, which bounds the loop. |
| FordFulkerson.Graph.constructor | max_flow/ford_fulkerson.cpp:28-30 | A size × size residual matrix of zeros. |
| FordFulkerson.Graph.AddEdge | max_flow/ford_fulkerson.cpp:32-49 | The capacity read back is the old one plus the added amount. No other entry changes. |
| FordFulkerson.Graph.Dfs | max_flow/ford_fulkerson.cpp:10-25 | A visited vertex returns 0 and changes nothing. Reaching `finish` returns the carried flow. The amount returned lies in 0..flow. Zero leaves the residuals unchanged, with every positive-residual edge out of a newly visited vertex pointing to a visited vertex. A positive amount is sent from `from` to `finish`, with every pair sum r[u][v] + r[v][u] kept and residuals non-negative. |
| FordFulkerson.Graph.MaxFlow | max_flow/ford_fulkerson.cpp:36-45 | The total is non-negative and equals the flow moved from start to finish, with pair sums kept. At the end a cut separates start from finish with no positive residual leaving it. |
| Residual.Push | max_flow/ford_fulkerson.cpp:19-20 | Sending f over (a, b) lowers r[a][b] by f and raises r[b][a] by f. Nothing else changes and every pair sum is kept. |
| Residual.PushRows | max_flow/ford_fulkerson.cpp:19-20 | The push lowers row a's sum by f and raises row b's by f. |
| Residual.ExtendTransfer | max_flow/ford_fulkerson.cpp:18-21 | A flow sent from `to` to `finish`, followed by the push over (from, to), is a flow from `from` to `finish` that keeps residuals non-negative. |
| Residual.ConservesTrans | max_flow/ford_fulkerson.cpp:40-41 | Two successive flows from the same source to the same sink add up. |
| EdmondsKarp.Graph.constructor | max_flow/edmonds_karp.cpp:39-41 | A size × size residual matrix of zeros. |
| EdmondsKarp.Graph.AddEdge | max_flow/edmonds_karp.cpp:43-69 | The capacity read back is the old one plus the added amount, which may be negative. No other entry changes. |
| EdmondsKarpSpec.Expand | max_flow/edmonds_karp.cpp:27-32 | Scanning a row queues every unvisited vertex with a non-zero residual, in column order, carrying min(flow, residual). It sets such a vertex's parent to `from`, overwriting an earlier parent, and leaves every other parent alone. |
| EdmondsKarp.Graph.ExpandRow | max_flow/edmonds_karp.cpp:27-32 | The row loop computes exactly that expansion. |
| EdmondsKarpSpec.BfsLoop | max_flow/edmonds_karp.cpp:17-35 | The queue loop of bfs, run on its state, keeps the parent array at one entry per vertex. Its steps are stated by BfsLoopExpands, and its outcome by SearchOutcomeHolds. |
| EdmondsKarpSpec.BfsLoopExpands | max_flow/edmonds_karp.cpp:17-32 | Dequeuing an unvisited vertex other than finish marks it and appends its expansion to the queue. |
| EdmondsKarp.Graph.Bfs | max_flow/edmonds_karp.cpp:11-36 | The loop computes the search function. Its result is 0 only when a set of vertices holding start and not finish has no non-zero residual leaving it. Otherwise the result is at most INT_MAX, the flow of the first queue entry for finish, and the parents form a tree over non-zero edges reaching finish from start. |
| EdmondsKarpSpec.SearchOutcomeHolds | max_flow/edmonds_karp.cpp:17-35 | The search invariant implies that outcome for the search function. |
| EdmondsKarpSpec.Walk | max_flow/edmonds_karp.cpp:54-60 | The walk from a vertex back along the parents, pushing f over each edge, gives a square matrix of the same size. What it moves is stated by WalkConserves and WalkNonNegative. |
| EdmondsKarpSpec.WalkConserves | max_flow/edmonds_karp.cpp:54-60 | Walking the parent chain from finish and pushing f over each edge sends f from start to finish. Every pair sum r[u][v] + r[v][u] is kept. |
| EdmondsKarp.Graph.Augment | max_flow/edmonds_karp.cpp:54-60 | The walking loop computes that chain push. |
| EdmondsKarpSpec.WalkNonNegative | max_flow/edmonds_karp.cpp:54-60 | If every chain edge carries at least f, the push leaves all residuals non-negative. |
| EdmondsKarp.Graph.Round | max_flow/edmonds_karp.cpp:51-60 | One bfs plus walk sends the returned amount from start to finish. A zero round changes nothing and comes with a separating cut. |
| EdmondsKarp.Graph.MaxFlow | max_flow/edmonds_karp.cpp:47-65 | Parents are reset after each round. The total is what left start and reached finish, with every other vertex balanced, even though residuals may go negative. When the loop stops by itself, a cut separates start from finish. |
| EdmondsKarpSpec.DiamondTree | max_flow/edmonds_karp.cpp:31 | Parents [-1, 0, 0, 2] with ranks [0, 1, 2, 3] form a tree rooted at 0. |
| EdmondsKarpSpec.DiamondWalk | max_flow/edmonds_karp.cpp:54-60 | On the diamond network, pushing 5 along that chain leaves residual 0→2 at -4. |
| EdmondsKarpSpec.OverwrittenParentOverdraws | max_flow/edmonds_karp.cpp:22-31 | On the diamond network the as-written search returns 5 with parent[2] overwritten to 0. The edge into 2 holds less than 5, and augmenting drives residual 0→2 to -4. |
| EdmondsKarpSpec.BottleneckCarried | max_flow/edmonds_karp.cpp:30 | When each tree vertex's carried amount is the minimum over its own chain, every edge of the chain from v can carry v's amount. |
| EdmondsKarpSpec.CorrectedDone | max_flow/edmonds_karp.cpp:22-35 | At the end of the corrected search, the outcome holds: 0 with a separating cut, or an amount every chain edge can carry. |
| EdmondsKarp.Graph.BfsCorrected | max_flow/edmonds_karp.cpp:23-31 | Marking a vertex when it is queued keeps each vertex's first parent. The result is 0 with a separating cut, or a positive amount of at most INT_MAX that every edge of the chain from start to finish can carry. |
| EdmondsKarp.Graph.RoundCorrected | max_flow/edmonds_karp.cpp:51-60 | A corrected round keeps residuals non-negative and sends a non-negative amount from start to finish. |
| EdmondsKarp.Graph.MaxFlowCorrected | max_flow/edmonds_karp.cpp:47-65 | Over corrected rounds max_flow terminates. It returns a non-negative total sent from start to finish, residuals stay non-negative, and a cut separates start from finish. |
| BTree.LowerBound | btree.cpp:55-82 | std::lower_bound: every key before the index is smaller than the key, and the key at the index, if any, is at least the key. |
| BTree.InsertSorted | btree.cpp:60 | The key lands at its lower bound, the length grows by one, and the multiset of keys gains exactly that key. |
| BTree.LowerBoundFinds | btree.cpp:57-83 | On ascending keys, the key is present iff it sits at the lower-bound index. |
| BTree.LowerBoundUnique | btree.cpp:55-56 | Any index with the lower-bound property is the lower bound. |
| BTree.InsertSortedSorted | btree.cpp:59-62 | Inserting a fresh key at its lower bound keeps the keys strictly ascending and adds exactly that key. |
| BTree.SplitChild | btree.cpp:30-50 | The parent gains one key and one child and keeps its leaf flag. The key put in at position i is key t - 1 of the split child. |
| BTree.SplitHalves | btree.cpp:35-45 | The left half keeps the first t-1 keys and t children, and the right half takes the rest. Both halves are well formed, and left, middle key, right is the old key sequence. |
| BTree.SplitChildKeeps | btree.cpp:30-50 | After splitChild the parent has one key more, key[t-1] of the child sits at position i, the halves have t-1 and the remaining keys, and the in-order sequence is unchanged. |
| BTree.SplitBounded | btree.cpp:68-69 | Splitting a child that overflowed by one key leaves every child within 2t-1 keys. |
| BTree.Descend | btree.cpp:64-85 | Without the key in the node, the key can only be in the child at the lower bound. Everything before that child is smaller and everything after is larger. |
| BTree.ReattachKeeps | btree.cpp:65-70 | Replacing the child and splitting it on overflow keeps the node well formed. The parent gains at most one key and its in-order sequence is that of the new children. |
| BTree.Reattach | btree.cpp:65-70 | Replacing child idx and splitting it when it overflows keeps the leaf flag and the difference between child and key counts. The node gains a key exactly when it gains a child. |
| BTree.InsertRec | btree.cpp:53-71 | insertRecursive keeps the leaf flag and adds at most one key to the node it is called on. An inner node keeps the difference between its child and key counts. |
| BTree.InsertWF | btree.cpp:53-71 | insertRecursive keeps children.size() == keys.size() + 1 for inner nodes and adds at most one key to the node it is called on. |
| BTree.InsertBounded | btree.cpp:53-71 | After insertRecursive every child holds at most 2t-1 keys. The node itself may reach 2t keys. |
| BTree.InsertPresent | btree.cpp:55-57 | Inserting a key already in the tree leaves it unchanged. |
| BTree.InsertContents | btree.cpp:53-71 | Inserting a fresh key makes the in-order sequence the old one with the key inserted in order. |
| BTree.RootSplit | btree.cpp:93-99 | An overflowing root split under a new root gives a bounded, well-formed tree with one root key and the same in-order sequence. |
| BTree.BTree.constructor | btree.cpp:74-76 | The tree starts as an empty leaf. |
| BTree.BTree.Search | btree.cpp:78-88 | search returns true iff the key is in the tree. |
| BTree.BTree.Insert | btree.cpp:91-100 | After insert the tree is well formed, every node holds at most 2t-1 keys, and the keys are strictly ascending and equal the inserted set. A present key leaves the tree unchanged. A fresh key is inserted in order. |
| BTree.InsertAll | btree.cpp:113 | Inserting a list of keys adds exactly those keys. |
| BTree.MainKeys | btree.cpp:110-117 | Of the queried keys, 8, 2 and 10 are among the inserted keys and 99, 1 and 12 are not. |
| BTree.Demonstration | btree.cpp:109-121 | With t = 3, the searches for 8, 2, 10, 99, 1, 12 return true, true, true, false, false, false. |
| MaxHeap.Parent | max_heap.cpp:102-106 | parent(0) is -1. For index ≥ 1, the parent is below the index and the index is its left or right child. C++ truncating division is written out. |
| MaxHeap.ChildSlots | max_heap.cpp:108-118 | left(i) lies after i, right(i) == left(i) + 1, and no two slots share a child. |
| MaxHeap.ParentOfChildren | max_heap.cpp:102-118 | parent(left(i)) == parent(right(i)) == i. |
| MaxHeap.StepLargest | max_heap.cpp:67-74 | One heapify step puts the largest of slot i and its two children into slot i, one of the three values, and touches no other slot. |
| MaxHeap.Swap | max_heap.cpp:71 | std::swap of two slots keeps the length. That it only permutes is stated by SwapPermutes. |
| MaxHeap.Step | max_heap.cpp:67-74 | One iteration of the heapify loop at slot i keeps the length. What it does to the three slots is stated by StepLargest and StepPermutes. |
| MaxHeap.Sweep | max_heap.cpp:65-75 | The first k iterations of the loop, in order of increasing slot, keep the length. SweepPermutes and SweepPrefix state the rest. |
| MaxHeap.Pass | max_heap.cpp:60-76 | heapify on the live prefix keeps its length. It is the specification that Heap.Heapify is proved against. |
| MaxHeap.StepPermutes | max_heap.cpp:70-74 | A step only swaps, so the multiset is unchanged. |
| MaxHeap.SweepPermutes | max_heap.cpp:65-75 | The whole pass only swaps, so the multiset is unchanged. |
| MaxHeap.SweepPrefix | max_heap.cpp:63-75 | The pass touches only the live prefix of the array. |
| MaxHeap.PassShort | max_heap.cpp:63-65 | With at most two live slots, parent(size) ≤ 0 and heapify does nothing. |
| MaxHeap.PassKeepsLast | max_heap.cpp:63-65 | With an even live size, the pass stops before the last parent, so the last slot is never compared. |
| MaxHeap.InsertTwoLeavesMaxBelow | max_heap.cpp:60-87 | Inserting 1 and then 2 into an empty heap leaves [1, 2]: the maximum is not at the root. |
| MaxHeap.Heap.constructor | max_heap.cpp:11-13 | A new heap of the given capacity is empty. |
| MaxHeap.Heap.Heapify | max_heap.cpp:60-76 | The live prefix becomes the single top-down pass over it. The dead slots are untouched. |
| MaxHeap.Heap.SiftAt | max_heap.cpp:67-74 | One turn of the heapify loop turns the array into Step of its old contents at that slot. |
| MaxHeap.Heap.Insert | max_heap.cpp:78-87 | A full heap refuses, standing for `throw 42`, and changes nothing. Otherwise the value goes to slot size, size rises by one, heapify runs, and the live multiset gains exactly the value. |
| MaxHeap.RemovalTakesIndex | max_heap.cpp:95-97 | Swapping live slot index with the last live slot and dropping the last slot removes exactly that slot's value from the live multiset. |
| MaxHeap.RemovalAtSizeTakesLast | max_heap.cpp:92-97 | remove(size), which the guard lets through, drops the last live value, not the one the caller named. |
| MaxHeap.Heap.Remove | max_heap.cpp:89-100 | As written, the call throws iff the index is negative, beyond size, or the heap is empty. index == size == SIZE indexes past the array. Otherwise slot index is swapped with the last live slot, size drops by one and heapify runs. |
| MaxHeap.Heap.SwapLast | max_heap.cpp:95 | Slot index trades places with the last live slot; nothing else changes. |
| MaxHeap.Heap.RemoveChecked | max_heap.cpp:89-100 | With the guard index < size, exactly the value in the chosen live slot leaves the live multiset. |
| SegmentTree.MidBounds | segment_tree.cpp:80 | The midpoint (l + r) / 2 of a range with l < r lies in [l, r). |
| SegmentTree.HalfIsQuotient | segment_tree.cpp:80 | The recursive halving used for the midpoint is integer division by 2. |
| SegmentTree.CreateTree | segment_tree.cpp:74-88 | create_tree builds a tree whose shape follows the halving of [l, r], with no pending operation. |
| SegmentTree.CreatedSlot | segment_tree.cpp:74-88 | Every leaf of the created tree holds data[i] for its index. |
| SegmentTree.CreatedSound | segment_tree.cpp:84-86 | Every internal node's data is the sum of its children's, and no operation is pending. |
| SegmentTree.DataIsSum | segment_tree.cpp:45-51 | getData of a node, with its pending op applied, is the sum of the logical values in its range, provided pending ops are additive. |
| SegmentTree.GetData | segment_tree.cpp:45-51 | A node with no pending operation answers its stored value. |
| SegmentTree.InnerQuery | segment_tree.cpp:102-123 | inner_query over a one-slot range answers that slot's value exactly when the slot is queried, and 0 otherwise. Its result over whole trees is stated by QuerySums. |
| SegmentTree.ReadsNull | segment_tree.cpp:103-115 | inner_query as written reads through a null child exactly when its descent meets a leaf over several slots that [l, r] only partly covers. That can happen only at such a straddling range. |
| SegmentTree.FittedReadsNoNull | segment_tree.cpp:74-88 | A tree over the range create_tree built it for never makes inner_query read through a null child. |
| SegmentTree.QuerySums | segment_tree.cpp:103-123 | inner_query over a node returns the sum of the logical values in the intersection of its range and [l, r]. |
| SegmentTree.QueryStep | segment_tree.cpp:115-122 | A partly covered node is internal, and its result is its op applied to the children's sum. |
| SegmentTree.InnerUpdate | segment_tree.cpp:131-163 | inner_update keeps a leaf a leaf and an inner node an inner node. A one-slot leaf gets f exactly when its slot is in [l, r]. Its effect on whole trees is stated by UpdateSlot. |
| SegmentTree.PushDown | segment_tree.cpp:144-151 | Pushing a pending op hands it to both children and leaves the node with none. |
| SegmentTree.PushSlot | segment_tree.cpp:144-151 | Pushing down does not change any logical value. |
| SegmentTree.UpdateSlot | segment_tree.cpp:131-163 | After inner_update, the logical value at i is f applied to the old value when i ∈ [l, r], and unchanged otherwise. |
| SegmentTree.UpdateFits | segment_tree.cpp:131-163 | inner_update keeps the tree's shape. |
| SegmentTree.UpdateSummed | segment_tree.cpp:149-162 | inner_update recomputes _data from the children, so every internal node stays the sum of its children. |
| SegmentTree.UpdateAdditive | segment_tree.cpp:153-156 | Storing an additive op keeps every pending op additive. |
| SegmentTree.ScaleAdditive | segment_tree.cpp:173-174 | The operations main uses, x ↦ c·x, are additive. |
| SegmentTree.SlotSumIsSum | segment_tree.cpp:103-123 | Summing leaves by index equals the sum over the logical array slice. |
| SegmentTree.MyArray.constructor | segment_tree.cpp:13-18 | The tree is built over the whole array and its logical values are the input. |
| SegmentTree.MyArray.Query | segment_tree.cpp:125-129 | Rooted at [0, size-1], query(l, r) is the sum of the logical array over [l, r] ∩ [0, size-1]. |
| SegmentTree.MyArray.Update | segment_tree.cpp:165-169 | Rooted at [0, size-1], update applies f to exactly the logical values in [l, r]. |
| SegmentTree.QueryAsWritten | segment_tree.cpp:125-129 | query as written starts from the constant root range [0, 7], so any query wholly past slot 7 answers 0, whatever the tree. |
| SegmentTree.FixedRangeUndercounts | segment_tree.cpp:125-129 | On nine slots with the last holding 1, query(8, 8) answers 0 at the root test without reading any child, though the slot holds 1. |
| SegmentTree.FixedRangeReadsNull | segment_tree.cpp:103-129 | On the two slots [1, 1], query(0, 1) descends from [0, 7] into the leaf for slot 0 with the range [0, 3] and reads through its null child. |
| SegmentTree.DoubledSlots | segment_tree.cpp:184 | Doubling [0, 3] of 0..7 gives [0, 2, 4, 6, 4, 5, 6, 7]. |
| SegmentTree.TripledSlots | segment_tree.cpp:193 | Tripling [2, 5] then gives [0, 2, 12, 18, 12, 15, 6, 7]. |
| SegmentTree.Demonstration | segment_tree.cpp:171-208 | The queries of main return 15, 20, 21, 28, then 12, 34, 27, 27, then 32, 70, 65. |
| PersistentTree.CreateTree | persistent_tree.cpp:111-127 | inner_create_tree over [l, r] builds a tree spanning the range by halving at (l + r) / 2. Its leaves are values[l..r] and every internal node is the sum of its children. |
| PersistentTree.SummedTotal | persistent_tree.cpp:101-126 | In a tree whose internal nodes are the sums of their children, the root holds the sum of the leaves. |
| PersistentTree.SpansHalves | persistent_tree.cpp:88-124 | A tree spanning [l, r] with l < r splits into children spanning [l, m] and [m+1, r]. |
| PersistentTree.Target | persistent_tree.cpp:82-99 | The leaf inner_set reaches lies in [l, r]. It is the index itself when the index is in range; otherwise the descent keeps going right. |
| PersistentTree.InnerSet | persistent_tree.cpp:78-102 | inner_set gives a leaf exactly for a one-slot range and a fresh inner node otherwise. InnerSetSpans, InnerSetLeaves, InnerSetShares and InnerSetSums state what the new version keeps and changes. |
| PersistentTree.InnerSetSpans | persistent_tree.cpp:78-102 | inner_set builds a new version with the same shape. |
| PersistentTree.InnerSetLeaves | persistent_tree.cpp:82-99 | In the new version the reached leaf holds the value and every other leaf equals the old one. |
| PersistentTree.InnerSetShares | persistent_tree.cpp:92-99 | Every subtree off the root-to-leaf path is the old version's subtree, shared. |
| PersistentTree.InnerSetSums | persistent_tree.cpp:101 | Every new internal node is the sum of its children. |
| PersistentTree.Create | persistent_tree.cpp:14-18 | A version over the whole array, holding the array's values. |
| PersistentTree.Set | persistent_tree.cpp:67-75 | set returns a new version of the same size. For an index below SIZE it holds the old values with that one replaced; beyond it, the last value is replaced. It shares every off-path subtree with the old version, which as a value stays unchanged. |
| PersistentTree.RootTotal | persistent_tree.cpp:101-126 | A version's root holds the sum of its values. |
| PersistentTree.SetTotal | persistent_tree.cpp:72-101 | After set, the root total changes by exactly value − old value. |
| PersistentTree.DemonstrationCreate | persistent_tree.cpp:153 | The version built from [3, 5, 1, 6] holds those values with total 15. |
| PersistentTree.DemonstrationSet | persistent_tree.cpp:157 | set(2, 4) on it gives [3, 5, 4, 6] with total 18. |
| SuperTree.IndexLetter | super_tree.cpp:8-28 | index maps 'A'..'Z' to 0..25 and back, and lands inside the 11-entry graph exactly for 'A'..'K'. |
| SuperTree.GraphWellFormed | super_tree.cpp:12-22 | The fixed graph has SIZE = 11 vertices and every neighbour it lists is one of them. |
| SuperTree.MarkOne | super_tree.cpp:69 | Marking one vertex adds exactly it to the marked set. |
| SuperTree.ScanStart | super_tree.cpp:69-73 | After marking the vertex, the neighbour loop starts with no children. |
| SuperTree.ScanSkip | super_tree.cpp:77 | A neighbour already marked is skipped. |
| SuperTree.ScanChild | super_tree.cpp:77-79 | A neighbour's subtree built by the recursive call is appended, in adjacency order. |
| SuperTree.ScanEnd | super_tree.cpp:75-83 | After the last neighbour, the node and its children form a built tree. |
| SuperTree.CreateSubtree | super_tree.cpp:64-84 | A visited vertex yields null and changes nothing. Otherwise the tree is rooted at the vertex, holds exactly the vertices this call marked, with none twice, and every child is a neighbour of its parent. Every neighbour of a vertex in it is marked by the end. Marks only change from false to true. |
| SuperTree.ClosedHoldsReachable | super_tree.cpp:64-84 | A vertex set holding r and closed under neighbours holds every vertex reachable from r. |
| SuperTree.TreeReachable | super_tree.cpp:75-81 | Every vertex of a tree whose children are neighbours of their parents is reachable from its root. |
| SuperTree.MyTree.constructor | super_tree.cpp:34-36 | The root is null iff the root vertex was already visited. Over an unmarked array, the tree holds each vertex at most once and exactly the vertices reachable from the root. |
| AVL.CalculateHeight | avl_tree.cpp:319-331 | A node's height is one more than its taller child's, a missing child counting 0 (StoredHeightIsHeight ties it to the real height). |
| AVL.BalanceFactor | avl_tree.cpp:276-288 | The balance factor is the left child's height minus the right child's, a missing child counting 0. |
| AVL.Recalc | avl_tree.cpp:168 | Refreshing the stored height keeps the keys and their order, and makes the node's height right when its children's are. |
| AVL.RotateRight | avl_tree.cpp:226-239 | A right rotation keeps the in-order key sequence and the stored heights consistent. |
| AVL.RotateLeft | avl_tree.cpp:242-255 | The mirror image: the in-order sequence and consistent heights are kept. |
| AVL.RotateLeftRight | avl_tree.cpp:258-264 | The double rotation keeps the in-order sequence and consistent heights. |
| AVL.RotateRightLeft | avl_tree.cpp:267-273 | The mirror double rotation keeps the in-order sequence and consistent heights. |
| AVL.Choice | avl_tree.cpp:296-315 | balance_tree's choice by key comparison: no rotation inside [-1, 1]. A right or left-right rotation only on a left-heavy node with a left child, and a left or right-left rotation only on a right-heavy node with a right child. |
| AVL.Dereferences | avl_tree.cpp:306-314 | balance_tree would rotate about a missing grandchild. That needs a child on at least one side. |
| AVL.BalanceTree | avl_tree.cpp:291-316 | balance_tree as written, choosing the rotation by comparing the key with the heavy child: it changes nothing when the balance factor is in [-1, 1], and otherwise keeps the in-order sequence and correct heights. |
| AVL.Rebalance | avl_tree.cpp:291-316 | The corrected rebalancing step, choosing the rotation by the heavy child's balance factor: the same guarantees as balance_tree, and RebalanceRepairs shows it restores the AVL shape. |
| AVL.InnerInsert | avl_tree.cpp:151-171 | inner_insert yields a node and keeps stored heights correct. |
| AVL.InnerFind | avl_tree.cpp:352-370 | In an ordered tree the search returns true exactly when the key is present. |
| AVL.FindMax | avl_tree.cpp:343-349 | find_max returns a key of the tree, and in an ordered tree the greatest one. |
| AVL.FindMin | avl_tree.cpp:334-340 | find_min returns a key of the tree, and in an ordered tree the least one. |
| AVL.InnerRemove | avl_tree.cpp:180-223 | inner_remove, with the corrected rebalancing step, keeps stored heights correct. |
| AVL.KeysInOrder | avl_tree.cpp:98-108 | The multiset of keys is the multiset of the in-order traversal. |
| AVL.OrderedIffSorted | avl_tree.cpp:98-108 | A tree is search-ordered exactly when its in-order traversal is sorted. |
| AVL.StoredHeightIsHeight | avl_tree.cpp:319-331 | When every node's height was set by calculate_height, the stored height is the tree's real height. |
| AVL.InsertKeys | avl_tree.cpp:151-171 | Insertion adds exactly one occurrence of the key. |
| AVL.InsertOrdered | avl_tree.cpp:159-166 | Insertion keeps the tree search-ordered. |
| AVL.RotateRightRepairs | avl_tree.cpp:226-239 | A right rotation repairs a node whose left child is two taller and not right-heavy; the result is AVL and its height is given. |
| AVL.RotateLeftRightRepairs | avl_tree.cpp:258-264 | A left-right rotation repairs a node whose left child is two taller and right-heavy. |
| AVL.InsertBalanced | avl_tree.cpp:151-171 | Inserting a key not yet present into an AVL tree gives an AVL tree whose height grows by at most one. |
| AVL.SetMaxKeys | avl_tree.cpp:203-206 | Writing the node's key into the predecessor's place swaps one key for the other. |
| AVL.SetMax | avl_tree.cpp:204-206 | Overwriting the rightmost key keeps size, height, correct stored heights and the AVL property. |
| AVL.SetMin | avl_tree.cpp:212-214 | Overwriting the leftmost key keeps size, height, correct stored heights and the AVL property. |
| AVL.SetMaxOrdered | avl_tree.cpp:203-206 | Overwriting the greatest key with a key at least as great keeps the tree ordered. |
| AVL.RemoveKeys | avl_tree.cpp:180-223 | Removing a present key drops one occurrence; removing an absent key changes no key. |
| AVL.RemoveOrdered | avl_tree.cpp:180-223 | Removal keeps the tree search-ordered. |
| AVL.RebalanceRepairs | avl_tree.cpp:291-316 | The corrected step turns a node with AVL children whose heights differ by at most two into an AVL tree that is at most one lower than before. |
| AVL.RemoveBalanced | avl_tree.cpp:180-223 | With the corrected step, removal keeps an AVL tree AVL and lowers it by at most one. |
| AVL.RemoveAbsent | avl_tree.cpp:182-192 | Removing an absent key from an AVL tree returns the same tree. |
| AVL.RemoveReachesNullRotation | avl_tree.cpp:291-316 | For keys a < b < c < d, the AVL tree c(b(a, -), d) loses d, and balance_tree as written then picks the left-right rotation about b's missing right child. |
| AVL.RemoveRebalancesExample | avl_tree.cpp:180-223 | The corrected removal of d from that tree gives b(a, c). |
| AVL.RepeatedKeyUnbalanced | avl_tree.cpp:159-170 | Inserting the same key three times leaves a chain of three right children that balance_tree cannot rotate; the tree is not balanced. |
| AVL.AVLTree.constructor | avl_tree.cpp:10-42 | A new tree is the single node holding the key, height 1. |
| AVL.AVLTree.Insert | avl_tree.cpp:145-148 | insert adds exactly one occurrence, keeps order and heights, and keeps an AVL tree AVL when the key is new. |
| AVL.AVLTree.Remove | avl_tree.cpp:174-177 | With the corrected rebalancing step, remove drops one occurrence of a present key, leaves other keys alone, keeps order and heights, keeps an AVL tree AVL, and leaves it untouched when the key is absent. |
| AVL.AVLTree.Find | avl_tree.cpp:367-370 | find answers whether the key is in the tree. |
| AVL.Demonstration | avl_tree.cpp:373-399 | The run of main reports 5 absent before it is inserted and present after. |
| RedBlack.InsertTreeKeys | red_black_tree.cpp:326-335 | The descent adds exactly one occurrence of the key. |
| RedBlack.InsertTreeMember | red_black_tree.cpp:326-335 | Every key after the descent was there before or is the new one. |
| RedBlack.InsertTreeSorted | red_black_tree.cpp:331-334 | Smaller keys left, equal or greater right keeps the in-order sequence sorted. |
| RedBlack.InnerInsert | red_black_tree.cpp:326-335 | inner_insert returns the new red leaf and the path to it; the path leads to the empty slot where the leaf hangs, and plugging the leaf there gives the tree with the key inserted. |
| RedBlack.FixStart | red_black_tree.cpp:326-335 | A red leaf hung in a red-black tree violates at most the red-parent rule, at the leaf. |
| RedBlack.FixAtRoot | red_black_tree.cpp:285-289 | When the fix-up reaches the root, blackening it gives a red-black tree. |
| RedBlack.FixBlackParent | red_black_tree.cpp:291-292 | A black parent means the tree is already red-black. |
| RedBlack.Recoloured | red_black_tree.cpp:301-314 | Recolouring parent and uncle black keeps the grandparent subtree's in-order keys. |
| RedBlack.RecolourRepairs | red_black_tree.cpp:297-314 | With a red parent and red uncle, recolouring repairs the tree at the root's children, and otherwise moves the violation up to the grandparent. |
| RedBlack.RotR | red_black_tree.cpp:123-161 | Lifting a left child over its parent keeps the in-order keys. |
| RedBlack.RotL | red_black_tree.cpp:164-202 | Lifting a right child over its parent keeps the in-order keys. |
| RedBlack.RotateChoice | red_black_tree.cpp:106-119 | rotate's choice by key comparison: when the node, its parent and its grandparent hold the same key, it always picks rotate_left_right. |
| RedBlack.ChoiceMatchesShape | red_black_tree.cpp:101-120 | With distinct keys, rotate's key comparisons pick the case the node's and parent's sides call for. |
| RedBlack.RepeatedKeyMisread | red_black_tree.cpp:106-119 | Inserting k into the valid tree k(-, red k) hangs it right of right, with no uncle; rotate's comparisons then pick the left-right case, though the shape is right-right. |
| RedBlack.Rotated | red_black_tree.cpp:101-120 | The rotation chosen by shape keeps the grandparent subtree's in-order keys. |
| RedBlack.RotateRepairs | red_black_tree.cpp:297-300 | With a red parent and a black or missing uncle, one rotation makes the whole tree red-black. |
| RedBlack.Sibling | red_black_tree.cpp:219-230 | sibling is missing exactly at the root; in an ordered tree it is the parent's other child. |
| RedBlack.ParentSide | red_black_tree.cpp:219-230 | In a tree with distinct keys, a node hangs left of its parent exactly when its key is smaller. |
| RedBlack.RedBlackTree.constructor | red_black_tree.cpp:8-10 | A new tree is empty and valid. |
| RedBlack.RedBlackTree.IsEmpty | red_black_tree.cpp:233-236 | isEmpty holds exactly when no key is stored. |
| RedBlack.RedBlackTree.Insert | red_black_tree.cpp:318-323 | insert keeps the tree red-black and sorted, adding exactly one occurrence of the key. |
| RedBlack.RedBlackTree.ValidateTree | red_black_tree.cpp:283-315 | validate_tree turns a tree with at most one red-red violation, at the given node, into a red-black tree with the same keys in the same order. |
| RedBlack.RedBlackTree.Rotate | red_black_tree.cpp:101-120 | rotate replaces the grandparent subtree by its rotated form and keeps the in-order keys. |
| RedBlack.RedBlackTree.RotateRight | red_black_tree.cpp:123-161 | rotate_right lifts the node over its parent, recolouring on request, and keeps the in-order keys. |
| RedBlack.RedBlackTree.RotateLeft | red_black_tree.cpp:164-202 | rotate_left, the mirror image, keeps the in-order keys. |
| RedBlack.RedBlackTree.RotateLeftRight | red_black_tree.cpp:205-209 | rotate_left_right: the node goes over its parent to the left, then over the grandparent to the right with recolouring; in-order keys are kept. |
| RedBlack.RedBlackTree.RotateRightLeft | red_black_tree.cpp:212-216 | The mirror double rotation keeps the in-order keys. |
| Splay.SideByKey | splay_tree.cpp:106-140 | With distinct keys, a node hangs left of its parent exactly when its key is smaller, which is how splay reads the shape. |
| Splay.PlugIncreasing | splay_tree.cpp:371-389 | Every subtree of a search tree is a search tree. |
| Splay.InsertTreeKeys | splay_tree.cpp:371-389 | After the descent the keys are the old ones and the new one. |
| Splay.InsertTreeIncreasing | splay_tree.cpp:379-386 | The descent keeps the keys strictly increasing in order. |
| Splay.InsertPresent | splay_tree.cpp:388 | Inserting a key already present changes nothing. |
| Splay.InsertFreshGrows | splay_tree.cpp:373-377 | Inserting a new key adds exactly one node. |
| Splay.InnerInsert | splay_tree.cpp:371-389 | inner_insert returns the node holding the key, at its place in the tree with the key inserted. |
| Splay.InnerMin | splay_tree.cpp:257-263 | inner_min reaches a node with no left child holding the first in-order key. |
| Splay.InnerMax | splay_tree.cpp:277-283 | inner_max reaches a node with no right child holding the last in-order key. |
| Splay.Zig | splay_tree.cpp:146-163 | The zig rotation lifts a left child over its parent, keeping its key and left subtree and the in-order keys. |
| Splay.Zag | splay_tree.cpp:166-183 | The zag rotation lifts a right child, keeping its key and right subtree and the in-order keys. |
| Splay.LastAtRoot | splay_tree.cpp:297-302 | When the greatest key is at the root, the root has no right child, so merge's link fills an empty slot. |
| Splay.SplayTree.constructor | splay_tree.cpp:12-14 | A new tree is empty and valid. |
| Splay.SplayTree.IsEmpty | splay_tree.cpp:251-254 | isEmpty holds exactly when no key is stored. |
| Splay.SplayTree.Min | splay_tree.cpp:266-274 | min fails on an empty tree and otherwise returns the least key. |
| Splay.SplayTree.Max | splay_tree.cpp:286-294 | max fails on an empty tree and otherwise returns the greatest key. |
| Splay.SplayTree.ZigRotation | splay_tree.cpp:146-163 | zig_rotation puts the lifted node in the parent's place and keeps the in-order keys. |
| Splay.SplayTree.ZagRotation | splay_tree.cpp:166-183 | zag_rotation, the mirror image, keeps the in-order keys. |
| Splay.SplayTree.ZigZigRotation | splay_tree.cpp:186-190 | zig_zig_rotation lifts the node two levels in the grandparent's place and keeps the in-order keys. |
| Splay.SplayTree.ZagZagRotation | splay_tree.cpp:193-197 | zag_zag_rotation, the mirror image, the same. |
| Splay.SplayTree.ZigZagRotation | splay_tree.cpp:200-204 | zig_zag_rotation lifts a right child of a left child two levels and keeps the in-order keys. |
| Splay.SplayTree.ZagZigRotation | splay_tree.cpp:207-211 | zag_zig_rotation, the mirror image, the same. |
| Splay.SplayTree.Splay | splay_tree.cpp:102-143 | splay brings the node to the root, keeping a valid search tree with the same in-order keys. |
| Splay.SplayTree.Insert | splay_tree.cpp:363-368 | insert leaves the key at the root; the keys are the old ones and the new one, unchanged when it was present and one more when it was not. |
| Splay.SplayTree.Merge | splay_tree.cpp:297-304 | merge of a tree whose keys all lie below the other's: the greatest key is splayed to the root and the other tree hangs as its right child, so the keys are the concatenation; the other tree is left empty. |
| Splay.Build | splay_tree.cpp:443-455 | Inserting a sequence of keys into an empty tree gives a valid tree holding exactly those keys. |
| Splay.Demonstration | splay_tree.cpp:443-463 | main's merge leaves the small tree holding 10, 15, 25, 33, 37, 40, 42 with 33 at the root, and the big tree empty. |
| SplayLinks.Zig | splay_tree.cpp:146-163 | zig_rotation field by field: it fails only for a node without a parent, keeps every key, and changes no cell besides the node, its parent and its right child. |
| SplayLinks.Zag | splay_tree.cpp:166-183 | zag_rotation field by field, the mirror image. |
| SplayLinks.ZigZig | splay_tree.cpp:186-190 | zig_zig_rotation as two zigs keeps every key and every link inside the arena. |
| SplayLinks.ZagZag | splay_tree.cpp:192-196 | zag_zag_rotation as two zags: when it applies, every cell keeps its key, the arena keeps its size, and every link stays inside it. |
| SplayLinks.ZagZig | splay_tree.cpp:206-210 | zag_zig_rotation as a zig then a zag: when it applies, every cell keeps its key, the arena keeps its size, and every link stays inside it. |
| SplayLinks.ZigZag | splay_tree.cpp:200-204 | zig_zag_rotation as a zag then a zig keeps every key and every link inside the arena. |
| SplayLinks.SplayFrom | splay_tree.cpp:102-143 | When splay's loop finishes, the node is the root and every key is unchanged. |
| SplayLinks.Hang | splay_tree.cpp:373-376 | The new node for the key is added at the end of the arena, with the node it hangs under as its parent and no children. All links stay inside the arena. |
| SplayLinks.Descend | splay_tree.cpp:371-389 | inner_insert's descent returns a cell holding the key, adding at most one cell. |
| SplayLinks.InnerInsert | splay_tree.cpp:371-389 | inner_insert returns a cell of the arena holding the key. |
| SplayLinks.Insert | splay_tree.cpp:363-368 | When insert finishes, the root cell holds the key. |
| SplayLinks.InnerMax | splay_tree.cpp:277-283 | inner_max reaches a cell with no right child. |
| SplayLinks.Merge | splay_tree.cpp:297-304 | merge as written: after splaying the maximum, the root's right child is the other tree, whose root's parent link is not set. |
| SplayLinks.MergeLinked | splay_tree.cpp:297-304 | The corrected merge also points the other root's parent link at the new root. |
| SplayLinks.MergeLosesInsertedKey | splay_tree.cpp:297-304 | For a < b < c, merging tree {b} into tree {a} as written and then inserting c reads through a null parent during the splay. |
| SplayLinks.MergeLinkedKeepsInsertedKey | splay_tree.cpp:297-304 | With the corrected merge the same insertion finishes with c at the root and every link consistent. |
| SplayLinks.ZigZigLeavesStaleLink | splay_tree.cpp:146-190 | In the chain d, c, b, a, a zig-zig of a leaves d naming c as its left child although c's parent is now b and a's parent is d: the links disagree until splay goes on. |
| SplayLinks.SplayRepairsStaleLink | splay_tree.cpp:102-143 | The rest of splay repairs that: inserting a into the chain d, c, b ends with consistent links and a at the root. |
| Cartesian.RootIsGreatest | cartesian_tree.cpp:66-69 | In a heap-ordered tree no priority exceeds the root's. |
| Cartesian.InnerMerge | cartesian_tree.cpp:161-175 | inner_merge returns the left keys followed by the right keys; an empty side gives the other; otherwise the root of higher priority stays on top, the left one on ties. |
| Cartesian.MergeBelow | cartesian_tree.cpp:161-175 | Merging two trees whose priorities are bounded keeps the bound. |
| Cartesian.MergeHeap | cartesian_tree.cpp:161-175 | Merging two heap-ordered trees gives a heap-ordered tree. |
| Cartesian.MergeTreap | cartesian_tree.cpp:161-175 | Merging two treaps, every left key at most every right key, gives a treap. |
| Cartesian.InnerSplit | cartesian_tree.cpp:185-208 | inner_split cuts the in-order keys into a prefix and a suffix. |
| Cartesian.SplitKeys | cartesian_tree.cpp:196-207 | On a sorted tree the first part holds exactly keys below the split key and the second keys at least it. |
| Cartesian.SplitBelow | cartesian_tree.cpp:185-208 | Splitting keeps a bound on priorities. |
| Cartesian.SplitHeap | cartesian_tree.cpp:185-208 | Both parts of a heap-ordered tree are heap-ordered. |
| Cartesian.SplitTreap | cartesian_tree.cpp:185-208 | Both parts of a treap are treaps, keys below the split key on the left and at least it on the right. |
| Cartesian.InsertNode | cartesian_tree.cpp:263-281 | insert_node adds the key unless it is present, where it changes nothing. |
| Cartesian.InsertNodeIncreasing | cartesian_tree.cpp:273-280 | The descent keeps strictly increasing keys increasing. |
| Cartesian.InsertNodeHeap | cartesian_tree.cpp:243-270 | A node whose priority is at most every priority in the tree hangs as a leaf without breaking the heap order; create_tree feeds nodes in non-increasing priority, so this holds. |
| Cartesian.InsertNodeBounds | cartesian_tree.cpp:263-281 | Upper and lower bounds on priorities that the new node respects survive the insertion. |
| Cartesian.InsertParts | cartesian_tree.cpp:121-126 | Splitting a treap at x, merging the smaller part with the new node and then with the rest gives a treap holding one more x. |
| Cartesian.EraseParts | cartesian_tree.cpp:142-147 | Splitting a treap at x and at x + 1 and merging the outer parts gives a treap with no x and every other key as often as before. |
| Cartesian.CartesianTree.constructor | cartesian_tree.cpp:235-249 | Building from the drained items gives strictly increasing keys, exactly the keys drained, and a treap when the items come in non-increasing priority, as a max-heap drains them. |
| Cartesian.CartesianTree.FromRoot | cartesian_tree.cpp:80-82 | The private constructor holds the given root. |
| Cartesian.CartesianTree.IsEmpty | cartesian_tree.cpp:105-109 | isEmpty holds exactly when no key is stored. |
| Cartesian.CartesianTree.Insert | cartesian_tree.cpp:111-132 | insert keeps a treap and adds exactly one occurrence of the key. |
| Cartesian.CartesianTree.Erase | cartesian_tree.cpp:134-148 | erase keeps a treap, removes every occurrence of the key and no other key. |
| Cartesian.CartesianTree.Merge | cartesian_tree.cpp:150-159 | The static merge returns a new tree holding the small tree's keys then the large tree's, empties both, and gives a treap when both were treaps with ordered keys. |
| Cartesian.CartesianTree.Split | cartesian_tree.cpp:177-183 | The static split empties the tree and leaves the keys below the key in small and the rest in large, both treaps when the tree was. |

## Left out

- Printing, traversal-to-stdout functions, every `main`'s output, and the debug prints inside the algorithms are I/O and are not modelled. The `Demonstration` members state the values the demos compute.
- Destructors, `delete`, `shared_ptr` and `unique_ptr` ownership and move or copy constructors are memory management and are not modelled.
- Integers are unbounded. Fixed-width overflow is not modelled. The `INT_MAX` sentinels of the Hungarian `delta` and of both flow searches are kept as explicit constants.
- Hungarian.Graph.MaxMatching: the `while` loop is bounded by a `fuel` parameter, and `done` says whether it finished. Termination of the source loop is not proved. Optimality of the returned weight is not claimed, because the early BFS exit can untighten matched edges.
- Hungarian.Graph.constructor requires a rectangular cost matrix; the source indexes rows by the first row's length.
- HopcroftKarp.Graph.Solve: bounded by `fuel` in the same way. Maximality of the final matching (Berge's theorem) is not proved; `done` only states that no augmenting path is left for the last search.
- HopcroftKarp.Graph.constructor requires 1-based edges inside the declared vertex counts; the source would write outside its vectors otherwise.
- GaleShapley.Graph.Solve requires n men and n women with complete preference lists that are permutations, and fresh pairs. These are the conditions under which the source's unchecked index at galey_shapley.cpp:40 stays in bounds.
- GaleShapley.Graph.constructor requires every woman's list to name men in range; the source writes `women_rank` at those indices unchecked.
- FordFulkerson.Graph.MaxFlow requires start != finish. With start == finish the source's first search returns `INT_MAX` on every round and never stops.
- EdmondsKarp.Graph.MaxFlow: the as-written loop is bounded by `fuel`, since the overwritten parent can make residuals negative and no termination measure exists for it. The corrected loop terminates without fuel.
- BTree.BTree.constructor requires a minimum degree of at least 1. With degree 0 the source's full-node test never holds and its split indices underflow.
- MaxHeap: the heap's element type is `int`. The template over any ordered type is not modelled.
- SegmentTree.MyArray.constructor and PersistentTree.Create require a non-empty array; the source computes `size - 1` as the last index and would underflow.
- SegmentTree: the `std::function` operand is modelled as integer addition, and pending range operations as `int -> int` functions.
- SegmentTree.MyArray.Query and SegmentTree.MyArray.Update start from the range the tree was built over, [0, size − 1], not the source's constant [0, 7]. The as-written query is QueryAsWritten. Its null reads are flagged by ReadsNull, where InnerQuery's 0 is only a placeholder. The as-written update is not modelled. Over a leaf of several slots, the source would store the operation on that leaf or read through its null children.
- AVL: nodes are values, and each recursive routine returns the subtree that replaces the old one. Rotating about a missing child is a null dereference in the source. The model records it with the predicate `Dereferences` and otherwise leaves the node unchanged.
- AVL.InsertBalanced requires a key not yet in the tree, because repeated keys defeat balance_tree's key comparisons (RepeatedKeyUnbalanced).
- AVL.InnerRemove uses the corrected rebalancing step (Rebalance); the as-written step is exhibited by RemoveReachesNullRotation.
- AVL.AVLTree.Remove: its guarantees (order, heights, AVL kept) belong to the corrected rebalancing step through AVL.InnerRemove; the source's key-comparison step can rotate about a missing child (RemoveReachesNullRotation).
- RedBlack: parent links are modelled as a zipper, so a node and its path to the root travel together. Rotate chooses its case by the node's and parent's sides. For distinct keys this equals the source's key comparisons (ChoiceMatchesShape); with equal keys it does not (RepeatedKeyMisread).
- Splay: the module Splay works on tree values, so it cannot show the transient disagreement between child and parent links; the module SplayLinks does.
- SplayLinks: the loops of splay and the descents of inner_insert and inner_max are bounded by a `fuel` parameter, returning an outcome that says whether the fuel ran out.
- Splay.SplayTree.Merge requires a non-empty receiver whose keys all lie below the other tree's, as the source's merge assumes; an empty receiver makes inner_max dereference null.
- Splay `lower_bound` and `upper_bound` are unimplemented stubs that return null and are not modelled. `split` is declared but never defined in the source.
- Cartesian: `getRandomNumber` uses `rand()` and floating point. A node's priority is an input instead. The max-heap header `create_tree` drains is not part of this model; the constructor takes the drained items as a sequence. Its capacity check is also not modelled.
- Cartesian.CartesianTree.Insert: the try/catch around split and merge only guards allocation failure, which is not modelled.
- Cartesian.CartesianTree.Erase: `data + 1` is unbounded here, so the wrap-around at the type's maximum is not modelled.
- Cartesian.CartesianTree.Split requires distinct `small` and `large` objects; passing one object twice aliases the two out-references, which is not modelled.
- Cartesian.CartesianTree.Merge requires distinct input trees, for the same reason.

## Findings

| source | as written | input that shows it | evidently intended | confidence | as-written member | corrected member |
|---|---|---|---|---|---|---|
| max_flow/edmonds_karp.cpp:22-31 | bfs overwrites `parents[to]` at every enqueue but returns the bottleneck carried by the first queue entry for `finish` | the diamond network of `DiamondTree`: the returned amount 5 is pushed along a chain whose edge 0→2 has residual 1, leaving −4 | each vertex keeps the parent that goes with the returned bottleneck, so residuals stay non-negative | high, not executed | EdmondsKarpSpec.OverwrittenParentOverdraws | EdmondsKarp.Graph.MaxFlowCorrected |
| max_heap.cpp:92 | remove rejects only `index > size`, so `index == size` passes the guard | size 3, remove(3): the slot past the live elements is swapped in and the last live element is dropped | reject `index >= size` | high, not executed | MaxHeap.RemovalAtSizeTakesLast | MaxHeap.Heap.RemoveChecked |
| segment_tree.cpp:126-129 | query (and likewise update at line 168) starts from the fixed root range [0, 7] | nine slots, the last holding 1: query(8, 8) returns 0 at the root test (lines 109-110) instead of 1; on two slots [1, 1], query(0, 1) reads through a null child of a leaf (FixedRangeReadsNull) | use the array's own range [0, size − 1] | high, not executed | SegmentTree.FixedRangeUndercounts | SegmentTree.MyArray.Query |
| avl_tree.cpp:291-316 | after a removal, balance_tree chooses the rotation by comparing the removed key with the heavy child | for a < b < c < d, removing d from c(b(a, −), d) selects the left-right rotation about b's missing right child, a null dereference | choose by the heavy child's balance factor | high, not executed | AVL.RemoveReachesNullRotation | AVL.RemoveBalanced |
| red_black_tree.cpp:106-119 | rotate chooses its case by comparing keys, so equal keys, which insert sends right, are misread | insert k into k(−, red k): the new node hangs right of right, but the comparisons select the left-right case | choose the case by which side the node and its parent hang on | medium, not executed | RedBlack.RepeatedKeyMisread | RedBlack.RotateRepairs |
| splay_tree.cpp:302 | merge hangs the other tree's root under the new root without setting its parent | for a < b < c: merge {b} into {a}, then insert c; the splay of c reads through b's null parent | set the attached root's parent to the new root | high, not executed | SplayLinks.MergeLosesInsertedKey | SplayLinks.MergeLinkedKeepsInsertedKey |
