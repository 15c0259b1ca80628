# Verified models of algorithms in microblx

The modules here model the algorithmic parts of microblx and of its standard blocks, and prove what they
promise. Each module can be read on its own; the ones that build on others import them.

- `ShortestPaths.dfy`: the path finding block. `DijkstraComputePaths` keeps its queue by erasing and inserting; the
  proof shows that the queue never holds a stale entry, that no vertex is settled twice, and that the labels are the
  infimum of the costs of all walks. Following `previous` yields a shortest walk, with zero-weight edges too.
- `Lloyd.dfy`: k-means. Every pass either leaves the grouping alone or moves to a better one in an order of cost and
  index sum over finitely many groupings, so the loop ends, for any number of points.
- `Matrices.dfy`, `TriangularSolve.dfy`, `Ftrsm.dfy`, `Cholesky.dfy`: the matrix library. Products, uniqueness and
  existence of solutions of triangular systems, the eight in-place solves, the in-place Cholesky factorisation through
  kernels that read and write the same matrix, and the solver on top of them. A symmetric matrix can be factored exactly
  if it is positive definite.
- `Uthash.dfy`, `UthashIter.dfy`, `UthashSort.dfy`, `UthashRun.dfy`, `UthashFsck.dfy`: the intrusive hash table. Objects with their four links, buckets
  with heads and counts, growth with its statistics, the bottom-up mergesort that relinks the list, and the library's
  own integrity check. Over any script of puts, deletes, finds, sorts and iterations that delete as they go, the table
  is a dictionary that keeps its order.
- `UbxNode.dfy`: registering, stopping, cleaning up and removing blocks, and the node shutdown that deletes from the
  table while it iterates over it.
- `Md5.dfy`: RFC 1321 as a specification, and the streaming implementation that refines it.
- `Glob.dfy`, `SocketQueue.dfy`, `UrlCodec.dfy`: the pattern matcher, the queue of accepted sockets and the URL codec of
  the web server.
- `YoubotBase.dfy`: control mode, watchdog and error statistics of the base driver.
- `PatMux.dfy`: packing typed arrays into bytes by a pattern, and unpacking them.
- `Trigger.dfy`: time stamps, and the statistics of the trigger block.

Code that changes things in place is modelled by classes, arrays and methods with loops; ghost parameters and fields
carry the abstract value that a method is specified by. Floating-point numbers are exact reals, and the square root is
a parameter of which only r >= 0 and r * r == x for x >= 0 is used.

Where code and expectation part: for the pattern `*|x` and the text `/`, which the rewrite and throttle options can
receive, `match_prefix` returns -1, although the first alternative matches, because an empty match of an alternative
before the last counts as none. `LostEmptyMatch` shows that -1 is the only result. `TellsMatchingIff` says exactly when
a nonnegative result still tells matching from not matching; `NonnegativeIffSomeMatchable` has the condition that can
be read off the pattern beforehand: no alternative before the last consists of stars only, or of stars and a dollar at
the end of the text. Every nonnegative result is the length of a match, and a positive one, the only thing that callers
ask for, is exact in any case.

## Model

| member | source | states |
|---|---|---|
| Graphs.InfiniteIffUnreachable | app_blocks/path_finding/path_finding.cpp:58-77 | a distance, the infimum of the costs of all walks, is infinite exactly for vertices without a walk of finite cost |
| Dijkstra.DijkstraComputePaths | app_blocks/path_finding/path_finding.cpp:70-110 | for non-negative weights the loop ends; every label is the distance from the source, and `previous` explains every finite label by a tight edge from a vertex settled earlier |
| Dijkstra.SettleStep | app_blocks/path_finding/path_finding.cpp:86-88 | taking the least entry keeps the invariant: the queue is exactly the labelled and unsettled vertices with their labels, and the vertex taken was not settled before |
| Dijkstra.ImproveStep | app_blocks/path_finding/path_finding.cpp:99-106 | erasing the old entry and inserting the improved one keeps the invariant, so no stale entry is ever left |
| Dijkstra.TargetIsUnsettled | app_blocks/path_finding/path_finding.cpp:99-104 | an edge never improves the label of a settled vertex |
| Dijkstra.LabelsAreLowerBounds | app_blocks/path_finding/path_finding.cpp:84-109 | at the end no walk costs less than the label of its target |
| Dijkstra.LabelsAreAttained | app_blocks/path_finding/path_finding.cpp:84-109 | at the end every finite label is the cost of a walk |
| Dijkstra.LabelsAreDistances | app_blocks/path_finding/path_finding.cpp:84-109 | the two bounds together: the final labels are the distances, of all vertices |
| Dijkstra.DijkstraGetShortestPathTo | app_blocks/path_finding/path_finding.cpp:113-120 | following `previous` ends, and gives a path from the source whose edges are all tight |
| Dijkstra.TightPathIsShortest | app_blocks/path_finding/path_finding.cpp:113-120 | such a path is a walk from the source whose cost is the label of its end |
| Dijkstra.BuildAdjacency | app_blocks/path_finding/path_finding.cpp:256-262 | the adjacency list has exactly the edges with finite entries in the cost table, with those weights |
| Dijkstra.FindRoute | app_blocks/path_finding/path_finding.cpp:256-266 | from cost table to route: the distance of the last vertex from the first, and a path of that cost if it is finite |
| Clustering.MeanIsBestCentre | app_blocks/k_means_plus/k_means/k_means.cpp:97-107 | the sum of squared distances of a cluster to its mean is at most that to any other point |
| Clustering.MeansAreBestCentres | app_blocks/k_means_plus/k_means/k_means.cpp:92-107 | replacing all centres by the means does not raise the cost of a grouping |
| Clustering.MovesAddUp | app_blocks/k_means_plus/k_means/k_means.cpp:110-116 | moves to closer centres, or equally close ones of lower index, lower the cost or keep it and lower the index sum |
| Clustering.RegroupingDescends | app_blocks/k_means_plus/k_means/k_means.cpp:89-117 | a pass that changes something leads to a better grouping: less cost to the own means, or the same with a lower index sum |
| Clustering.BetterLowersRank | app_blocks/k_means_plus/k_means/k_means.cpp:89-117 | a better grouping has fewer groupings better than itself, which bounds the number of passes |
| Lloyd.Nearest | app_blocks/k_means_plus/k_means/k_means.cpp:37-51 | the first of the closest centroids, where the centroid of an empty cluster never wins, or the point's own group if none wins |
| Lloyd.ComputeCentroids | app_blocks/k_means_plus/k_means/k_means.cpp:92-107 | every centroid is the mean of its cluster, or undefined if that is empty |
| Lloyd.Pass | app_blocks/k_means_plus/k_means/k_means.cpp:89-116 | a pass moves every point to its nearest centroid, counts the moves, does not raise the objective, and lowers the rank if anything moved |
| Lloyd.Lloyd | app_blocks/k_means_plus/k_means/k_means.cpp:78-123 | the loop ends for any number of points, at centroids of a grouping from which at most a 1024th of the points moved since (none below 1024 points), with every point at its nearest centroid and no greater objective |
| Matrices.DotSplit | std_blocks/fmpc_c/mol/fdot.hpp:38-46 | a dot product splits at any index |
| Matrices.ProductIsAssociative | std_blocks/fmpc_c/mol/fpotrs.hpp:20-31 | (XY)Z == X(YZ), entry by entry, which is what solving by two factors rests on |
| TriangularSystems.SolutionIsUnique | std_blocks/fmpc_c/mol/ftrsm.hpp:14-21 | a triangular system with nonzero diagonal has at most one solution |
| TriangularSystems.SolutionExists | std_blocks/fmpc_c/mol/ftrsm.hpp:14-21 | and has one, from the left |
| TriangularSystems.RightSolutionIsUnique | std_blocks/fmpc_c/mol/ftrsm.hpp:14-21 | a system X op(A) == B has at most one solution as well |
| TriangularSystems.RightSolutionExists | std_blocks/fmpc_c/mol/ftrsm.hpp:14-21 | and from the right |
| Ftrsm.LeftUpper | std_blocks/fmpc_c/mol/ftrsm.hpp:43-57 | case 0: column j becomes that of the solution by eliminating upwards, although zero entries are skipped |
| Ftrsm.LeftLower | std_blocks/fmpc_c/mol/ftrsm.hpp:59-71 | case 1: the same by eliminating downwards |
| Ftrsm.LeftUpperTransposed | std_blocks/fmpc_c/mol/ftrsm.hpp:74-85 | case 2: the same by summing finished entries from the top |
| Ftrsm.LeftLowerTransposed | std_blocks/fmpc_c/mol/ftrsm.hpp:86-98 | case 3: the same from the bottom |
| Ftrsm.RightUpper | std_blocks/fmpc_c/mol/ftrsm.hpp:100-117 | case 4: B becomes the solution, column by column from the left |
| Ftrsm.RightLower | std_blocks/fmpc_c/mol/ftrsm.hpp:119-134 | case 5: the same from the right |
| Ftrsm.RightUpperTransposed | std_blocks/fmpc_c/mol/ftrsm.hpp:136-151 | case 6: the same, where alpha is applied to a column only after the column was propagated |
| Ftrsm.RightLowerTransposed | std_blocks/fmpc_c/mol/ftrsm.hpp:153-171 | case 7: the same in the other direction |
| Ftrsm.Ftrsm | std_blocks/fmpc_c/mol/ftrsm.hpp:25-174 | all eight cases: B is overwritten by the solution X of op(A)X == alpha B or X op(A) == alpha B, and A is unchanged |
| Kernels.Fdot | std_blocks/fmpc_c/mol/fdot.hpp:31-48 | the sum of the products of two blocks, possibly of the same matrix |
| Kernels.Fscal | std_blocks/fmpc_c/mol/fscal.hpp:17-25 | a block is scaled, everything else stays |
| Kernels.SweepBeta | std_blocks/fmpc_c/mol/fgemv.hpp:103-106 | the entries that the sweep hits are multiplied by beta, once for every time it hits them: it goes through the row-major storage from the start of the target, so it runs past the end of a row into the next |
| Kernels.SweptByOne | std_blocks/fmpc_c/mol/fgemv.hpp:103-106 | with beta equal to 1 the sweep changes nothing, wherever it goes |
| Kernels.SweptInRow | std_blocks/fmpc_c/mol/fgemv.hpp:103-106 | a sweep that stays within its rows multiplies exactly the target by beta |
| Kernels.Fgemv | std_blocks/fmpc_c/mol/fgemv.hpp:91-164 | for every beta, the target row or column gains alpha times the matrix-vector product of the operands as the sweep leaves them, which may lie in the same matrix but spare the target |
| CholeskyFactors.PivotIsPositive | std_blocks/fmpc_c/mol/fpotf2.hpp:23-27 | the pivots of a positive definite matrix are positive, so the square roots are of positive numbers |
| CholeskyFactors.FactorGrows | std_blocks/fmpc_c/mol/fpotf2.hpp:22-35 | a finished row extends the factor of the leading rows |
| CholeskyFactors.FactorMultipliesOut | std_blocks/fmpc_c/mol/fpotf2.hpp:21-36 | a factor of all rows satisfies transposed(U) U == A, in both triangles |
| CholeskyFactors.FactorImpliesPositiveDefinite | std_blocks/fmpc_c/mol/fpotf2.hpp:14-60 | a matrix with such a factor is positive definite |
| CholeskyFactors.FactorIsUnique | std_blocks/fmpc_c/mol/fpotf2.hpp:14-60 | two factors of a matrix agree in their upper triangles |
| Solver.FactorUpper | std_blocks/fmpc_c/mol/fpotf2.hpp:20-36 | in place, the upper triangle becomes the factor and the strict lower triangle is not touched |
| Solver.FactorLower | std_blocks/fmpc_c/mol/fpotf2.hpp:37-57 | in place, the lower triangle becomes the transposed factor and the strict upper triangle is not touched |
| Solver.Fpotf2 | std_blocks/fmpc_c/mol/fpotf2.hpp:14-60 | both cases, for every symmetric positive definite matrix: the triangle holds the one Cholesky factor, and the opposite one stays |
| Solver.FactorableIffPositiveDefinite | std_blocks/fmpc_c/mol/fpotf2.hpp:14-60 | a symmetric matrix has a factor with positive diagonal exactly if it is positive definite |
| Solver.TwoSolvesSolve | std_blocks/fmpc_c/mol/fpotrs.hpp:21-30 | solving with the transposed factor and then with the factor solves with the matrix |
| Solver.Fpotrs | std_blocks/fmpc_c/mol/fpotrs.hpp:19-31 | from a factor of A, B is overwritten by X with AX equal to the old B, for either triangle |
| Solver.Fposv | std_blocks/fmpc_c/mol/fposv.hpp:28-34 | for every symmetric positive definite A, B is overwritten by X with the original A times X equal to the original B |
| Solver.FposvOfArrays | std_blocks/fmpc_c/mol/fposv.hpp:28-34 | the same without ghost parameters: what A held before, times what B holds afterwards, is what B held before |
| Bits.MaskIsRemainder | src/uthash.h:198-201 | masking with a power of two less one is the remainder |
| Bits.ShiftIsQuotient | src/uthash.h:677-678 | shifting right is division by the power of two |
| Bits.CeilingIsLeast | src/uthash.h:648-663 | the quotient plus one for a remainder is the least chain length that holds all items |
| Uthash.Table.FindKey | src/uthash.h:597-608 | the element with the key among all indexed elements, or null if there is none, by a walk along one chain |
| Uthash.Table.AddToBkt | src/uthash.h:611-622 | the element is indexed besides the others, and the buckets are doubled exactly if its bucket reaches ten for each of its multipliers and growth has not been given up |
| Uthash.Table.DelInBkt | src/uthash.h:625-635 | exactly that element is no longer indexed; links, heads and counts stay right |
| Uthash.Table.Rehash | src/uthash.h:681-700 | the elements of the old chains, and no others, are linked in twice as many chains by their hash values, with exact statistics |
| Uthash.Table.IdealLength | src/uthash.h:677-679 | the ideal chain length, computed by shift and mask, is the number of items over the new number of buckets, rounded up, and is positive |
| Uthash.Table.ExpandBuckets | src/uthash.h:666-712 | the table indexes the same elements in twice as many buckets; nonideal items are the sum of what chains have beyond the ideal length, multipliers count / ideal on exactly the overfull buckets, and growth is given up after two ineffective doublings |
| Uthash.ChainsSplitInTwo | src/uthash.h:686-697 | an element of bucket i goes to bucket i or i + b when b buckets double |
| Uthash.HashTable.Find | src/uthash.h:94-105 | the item with the key, or null exactly if no item has it |
| Uthash.HashTable.Add | src/uthash.h:173-196 | an item with a fresh key is appended to the insertion order, and the invariant of links, buckets, counts and tail is kept |
| Uthash.HashTable.Delete | src/uthash.h:215-248 | exactly the item is taken out of the insertion order, at either end or between, the invariant is kept, and the last item takes the table with it |
| Uthash.HashTable.Relist | src/uthash.h:787-795 | a relinked list of the same items is taken over: head, tail and order change, the buckets do not |
| UthashRun.NextLookup | src/uthash.h:94-866 | the laws of a dictionary: a put and a delete affect their own key only, a find and a sort none, a sweep those whose entries are doomed, and keys stay unique |
| UthashRun.SortItems | src/uthash.h:719-796 | sorting the items by key sorts the entries by key, stably |
| UthashRun.SweepItems | src/uthash.h:859-866 | iterating with the next item fetched ahead, and deleting on the way, leaves exactly the entries that are not doomed, in order |
| UthashRun.Perform | src/uthash.h:94-866 | every operation does to the table what it does to a dictionary, and answers the same |
| UthashRun.Run | src/uthash.h:94-866 | any script of puts, deletes, finds, sorts and sweeps on a new table, under any hash function: the items are the entries of the dictionary in its order, and every answer is that of the dictionary |
| UthashFsck.ChainsCount | src/uthash.h:285-308 | the chains share no element, so their lengths add up to the number of elements |
| UthashFsck.CheckChain | src/uthash.h:287-298 | the walk over a chain reports ok exactly if its backward links are right, and counts its elements |
| UthashFsck.CheckAppOrder | src/uthash.h:309-322 | the same for the insertion order |
| UthashFsck.Fsck | src/uthash.h:278-328 | the library's integrity check passes on every table that the operations leave behind |
| MergeSort.MergeIsSorted | src/uthash.h:745-779 | merging two sorted runs gives a sorted list |
| MergeSort.MergeIsStable | src/uthash.h:745-779 | and keeps the order of elements that compare equal, those of the left run first |
| MergeSort.MergeIsPermutation | src/uthash.h:745-779 | and has exactly the elements of both |
| MergeSort.ArrangedIsStableSort | src/uthash.h:719-796 | sorting by insertion, which is what the sort is measured by, sorts and keeps the order of ties |
| MergeSort.StableSortIsUnique | src/uthash.h:719-796 | a list has only one stable sort |
| MergeSort.PassDoublesRuns | src/uthash.h:728-785 | a pass over sorted runs of length n leaves sorted runs of length 2n |
| MergeSort.PassIsPermutation | src/uthash.h:728-785 | a pass permutes the list |
| MergeSort.PassIsStable | src/uthash.h:728-785 | and keeps the order of elements that compare equal |
| UthashSort.MergeRuns | src/uthash.h:745-779 | relinking in place appends the merge of the two runs to the list built so far, with backward links |
| UthashSort.Pass | src/uthash.h:728-785 | relinking the whole list once gives the merge pass of the list, with all links right, and counts the merges |
| UthashSort.SortList | src/uthash.h:719-796 | the loop over passes ends, with a linked, sorted, stable permutation of the list |
| UthashSort.Sort | src/uthash.h:719-796 | the table stays valid, its items are a stable sorted permutation of what they were under any total preorder, the same that insertion gives, and no bucket or chain changes |
| UbxNode.BlockRegister | src/ubx.c:310-347 | a block is appended to the registry exactly if it is not an instance of another node, has a known type and a fresh name, and its types resolve; a block that is admitted belongs to the node from then on, even if its types do not resolve |
| UbxNode.RegisterAgain | src/ubx.c:310-347 | so an instance whose types once failed to resolve is never registered |
| UbxNode.BlockUnregister | src/ubx.c:373-387 | exactly the block with the name leaves the registry, and null is returned if there is none |
| UbxNode.BlockRm | src/ubx.c:1097-1128 | a block is removed exactly if it is an instance in state Preinit; an unknown name is told apart |
| UbxNode.BlockStop | src/ubx.c:1854-1878 | only an active block is stopped |
| UbxNode.BlockCleanup | src/ubx.c:1888-1912 | only an inactive block is cleaned up |
| UbxNode.StopBlocks | src/ubx.c:263-269 | the first pass visits every block once and stops the active ones |
| UbxNode.CleanupBlocks | src/ubx.c:271-277 | the second pass brings every inactive block to Preinit |
| UbxNode.RemoveInstances | src/ubx.c:279-285 | iterating with the next block fetched ahead, while the current one is deleted, visits every block and leaves exactly those that are no instance in Preinit, in their order |
| UthashIter.RemainingElements | src/ubx.c:279-285 | what remains are the elements that were not to go |
| UbxNode.NodeCleanup | src/ubx.c:257-285 | from any state, exactly the prototypes stay registered, in their order, all in state Preinit, in a valid table |
| Rfc1321.ChainAppend | src/md5.c:103-109 | hashing block by block is the chain over the concatenation |
| Md5.F1IsF | src/md5.c:164-165 | the optimised first function is the RFC's F |
| Md5.F2IsG | src/md5.c:166-166 | the second function, by swapped arguments of the first, is the RFC's G |
| Md5.StepMatches | src/md5.c:171-172 | the step with its own order of additions is the RFC's step |
| Md5.MD5Transform | src/md5.c:179-261 | the 64 unrolled steps with renamed registers are the RFC's four rounds of a block, added to the registers |
| Md5.ByteReverse | src/md5.c:39-49 | the words of a buffer, low-order byte first |
| Md5.CarryIsRight | src/md5.c:78-81 | with its carry, the pair of counters is eight times the number of bytes modulo 2^64 |
| Md5.MD5Context.MD5Init | src/md5.c:55-65 | a context of the empty message |
| Md5.MD5Context.MD5Update | src/md5.c:71-114 | the data is absorbed behind what was seen before, whatever is left over from that |
| Md5.MD5Context.Pad | src/md5.c:126-150 | one or two blocks of padding, by whether the length still fits |
| Md5.MD5Context.MD5Final | src/md5.c:120-160 | the digest of RFC 1321 of all that was absorbed, and a wiped context |
| Md5.LastBlock | src/md5.c:150-156 | the block that ends in the two counters completes the padded message |
| Md5.MD5 | src/md5.c:267-275 | the digest of the input |
| Md5.MD5OfChunks | src/md5.c:55-160 | however a message is split into updates, the digest is that of the whole message |
| Globs.GreedyMatches | std_blocks/webif/mongoose.c:886-911 | the greedy choice of every star is a match |
| Globs.GreedyIsPositive | std_blocks/webif/mongoose.c:886-911 | and is empty only if every match is |
| Globs.PositiveIffMatched | std_blocks/webif/mongoose.c:875-912 | the result is positive exactly if some alternative matches a nonempty prefix, and then it is the length of a matching prefix |
| Globs.NonnegativeIffMatchable | std_blocks/webif/mongoose.c:886-911 | without a bar, the result is nonnegative exactly if some prefix matches |
| Globs.NonnegativeIsMatch | std_blocks/webif/mongoose.c:875-912 | with bars too, a nonnegative result is the length of a match, and no result exceeds the length of the text |
| Globs.NonnegativeIff | std_blocks/webif/mongoose.c:879-883 | with bars, it is so exactly if some alternative has a nonempty match or the last alternative matches |
| Globs.EmptyMatchIff | std_blocks/webif/mongoose.c:886-911 | an alternative matches the empty prefix exactly if it consists of stars, with a dollar after them only if the text is empty |
| Globs.NonnegativeIffSomeMatchable | std_blocks/webif/mongoose.c:879-883 | if no alternative before the last is of that form, the result is nonnegative exactly if some alternative matches |
| Globs.TellsMatchingIff | std_blocks/webif/mongoose.c:879-883 | the result tells matching from not matching exactly if no alternative before the last is of that form, or the last one matches, or some alternative has a nonempty match |
| Globs.LostEmptyMatch | std_blocks/webif/mongoose.c:879-883 | for a star, a bar and an x, and the text of one slash, the first alternative matches, and the only result is -1 |
| MatchPrefix.MatchPrefix | std_blocks/webif/mongoose.c:875-912 | the recursion ends; the result is the greedy match of the first alternative with a nonempty one, otherwise that of the last alternative, and it is between -1 and the length of the text |
| MatchPrefix.MatchOne | std_blocks/webif/mongoose.c:886-911 | for a pattern without bars, the length of the greedy match or -1 |
| MatchPrefix.MatchStar | std_blocks/webif/mongoose.c:893-906 | trying stretches from the longest down finds the greedy match, where a single star stops at a slash |
| SocketQueue.Context.ProduceSocket | std_blocks/webif/mongoose.c:5059-5077 | a socket goes to the end of the queue if there is room; a full queue makes the master wait, or drops the socket when stopping |
| SocketQueue.Context.ConsumeSocket | std_blocks/webif/mongoose.c:4977-5004 | the oldest socket is taken if there is one; an empty queue makes the worker wait, unless stopping |
| SocketQueue.Context.Rebase | std_blocks/webif/mongoose.c:4993-4997 | lowering both indices moves no socket to another slot |
| SocketQueue.PutKeepsOthers | std_blocks/webif/mongoose.c:5068-5072 | a socket put into a queue with room overwrites no waiting one |
| SocketQueue.Run | std_blocks/webif/mongoose.c:4977-5077 | in every interleaving of the critical sections, at every moment, the sockets taken are the first ones queued, at most 20 fewer, and the rest are waiting in order |
| UrlCodec.DecodedEncoded | std_blocks/webif/mongoose.c:1661-1684 | decoding gives back what was encoded, in both modes |
| UrlCodec.MgUrlEncode | std_blocks/webif/mongoose.c:2572-2590 | dst holds the encoded text if there is room for it, otherwise what fits, exactly; it is terminated within its length and left alone behind that |
| UrlCodec.WrittenSoFar | std_blocks/webif/mongoose.c:2577-2587 | what fits is the code of the longest beginning with room for it, and at most two places more, which keep what they held except where the next bytes need no escape |
| UrlCodec.MgUrlDecode | std_blocks/webif/mongoose.c:1661-1684 | dst holds the decoded text, or as much as fits and the result is -1, whether it is another buffer or src itself; what is behind the terminator stays |
| UrlCodec.DecodeUri | std_blocks/webif/mongoose.c:4312-4313 | the address of a request is decoded in place and always fits; what is behind it stays |
| YoubotBase.BaseInfo.PrepareStart | std_blocks/youbot_driver/youbot_driver.c:378-384 | all commanded values are zero |
| YoubotBase.BaseInfo.ProcWheel | std_blocks/youbot_driver/youbot_driver.c:456-512 | one wheel: every error it raises is counted once, I2T only on its rising edge; the others' statistics stay |
| YoubotBase.BaseInfo.ProcErrflg | std_blocks/youbot_driver/youbot_driver.c:450-516 | all wheels: the statistics go up by the errors raised, the result is the number of fatal ones, wheels that report are noted and never forgotten, and the mode is MotorStop exactly when a wheel begins to exceed its I2T limit |
| YoubotBase.BaseInfo.CheckWatchdog | std_blocks/youbot_driver/youbot_driver.c:641-662 | triggering notes the time; otherwise an age of the timeout or more stops the motors |
| YoubotBase.BaseInfo.ChooseMode | std_blocks/youbot_driver/youbot_driver.c:692-724 | the mode of the cycle: Initialize until configured, then a valid new mode, which clears the wheel values and triggers the watchdog, or the one before, unless a wheel begins to exceed its limit |
| YoubotBase.BaseInfo.HandleMode | std_blocks/youbot_driver/youbot_driver.c:728-771 | a command of the mode is taken over; without one, nonzero values older than the timeout stop the motors; other modes stop |
| YoubotBase.BaseInfo.ProcUpdate | std_blocks/youbot_driver/youbot_driver.c:672-783 | which mode and values a cycle sends, for every reading of ports, flags and clock; in particular, what drives the wheels was read in this cycle, or drove them before in the same mode and is younger than the timeout |
| YoubotBase.Run | std_blocks/youbot_driver/youbot_driver.c:672-783 | in every run, nonzero values that drive the wheels are those that a cycle less than the timeout ago, working in the same mode, read as its command, and they have driven the wheels ever since; the mode is Initialize until every wheel has reported; and the statistics count the errors raised in the run |
| PatMux.PackedSize | std_blocks/pat_mux/pat_mux.cpp:314-352 | the packed bytes are as many as the widths times the counts add up to |
| PatMux.PackedIsInjective | std_blocks/pat_mux/pat_mux.cpp:314-407 | bytes are packed from one sequence of values per kind only |
| PatMux.Mux | std_blocks/pat_mux/pat_mux.cpp:288-352 | the output is the packing of the inputs, segment by segment, and the total is its size |
| PatMux.Demux | std_blocks/pat_mux/pat_mux.cpp:360-407 | each kind's array starts with values of which the input bytes are the packing, and is otherwise as before |
| PatMux.Transfer | std_blocks/pat_mux/pat_mux.cpp:288-407 | unpacking what was packed by the same pattern gives each kind's values, in order, across interleaved segments |
| PatMux.NumberOfDecimal | std_blocks/pat_mux/pat_mux.cpp:180-181 | reading a printed number gives the number |
| PatMux.ReadOfPrinted | std_blocks/pat_mux/pat_mux.cpp:176-193 | the segments of a pattern are recovered from its printed form |
| PatMux.Str2ByteInfo | std_blocks/pat_mux/pat_mux.cpp:176-193 | from any text, one segment for each number, with the last letter before it, or with the letter left from before for a number at the beginning; everything behind them stays |
| Timespecs.NormalIsUnique | src/ubx.c:2118-2141 | a time has only one normal form |
| Timespecs.UbxTsNorm | src/ubx.c:2118-2141 | the same time, with less than a second of nanoseconds and no opposite signs, under truncating division |
| Timespecs.UbxTsCmp | src/ubx.c:2104-2111 | on normal forms the comparison is the order of the times |
| Timespecs.UbxTsSub | src/ubx.c:2151-2157 | the difference in normal form, also when the result is an operand |
| Timespecs.UbxTsAdd | src/ubx.c:2166-2171 | the sum in normal form, also when the result is an operand |
| Trigger.TrigInf.TrigInit | std_blocks/trig/trig.c:116-143 | statistics of no passes |
| Trigger.TrigInf.DoTrigger | std_blocks/trig/trig.c:70-101 | a pass is counted and measured exactly if all its steps succeed |
| Trigger.Run | std_blocks/trig/trig.c:70-101 | over any run, the count, total, minimum and maximum are those of the durations of the completed passes |
| Trigger.TrueExtrema | std_blocks/trig/trig.c:88-92 | minimum and maximum are durations that occurred exactly if some duration is within the initial values |

## Left out

- Floating-point rounding, overflow and NaN arithmetic: numbers are exact reals; an infinite weight and the undefined centroid of an empty cluster are modelled.
- Solver.Fpotf2: the square root is a parameter, so the difference between `sqrtf` and `sqrt` does not appear; matrices that are not positive definite are not covered, since the code does not test for them.
- Dijkstra.FindRoute: the copy of the path into an array of the path's former size, and the waypoints read through it.
- Lloyd.Lloyd: `kpp_s` only stands for an arbitrary valid initial grouping.
- Uthash.HashTable.Add: the hash function is arbitrary; unsigned wrap-around of counters, allocation failure, the Bloom filter, `HASH_SELECT` and `HASH_REPLACE` are not modelled, and `hho` pointer arithmetic is a reference to the element.
- Uthash.Table.ExpandBuckets: the bucket array is a sequence of records, so freeing the old array is not modelled.
- UthashSort.Sort: the comparison function is a parameter that must be a total preorder on the items.
- UthashRun.Run: sorts compare keys, so that they can be part of a script; `UthashSort.Sort` takes any comparison of elements.
- UbxNode.NodeCleanup: hooks of blocks are assumed not to touch the registry; freeing blocks, unloading modules and removing types are not modelled.
- UbxNode.BlockRegister: the resolution of types is an input.
- Md5.MD5Context: the union of bytes and words is modelled by its bytes; the word view is what `ByteReverse` returns, on machines of either byte order.
- Md5.MD5: negative lengths, which the code turns into huge ones.
- MatchPrefix.MatchPrefix: texts are NUL-free and NUL-terminated, and the character after the pattern is not a star, as with every caller.
- SocketQueue.Run: liveness, since the stop flag and the broadcast are outside the mutex; only what each critical section does is modelled.
- YoubotBase.BaseInfo.ProcErrflg: the messages sent to the slaves; whether the timeout flag could be cleared is an input.
- YoubotBase.Run: clock reads succeed; with a failing clock the watchdog neither triggers nor expires. Odometry and measured data are not modelled.
- PatMux.Demux: ports, and the byte count that arrives beside the bytes, which the code ignores.
- PatMux.Str2ByteInfo: numbers that overflow.
- Trigger.TrigInf.DoTrigger: writing the statistics to a port, and overflow of seconds and counters.
- `ubx_ts_div`, the arm of the youBot, `ptrig`, the second versions of fmpc and pat_mux, and MD5 inside the web server: duplicates of what is modelled, or code whose contract is not met.
- Sockets, files, HTTP dispatch, Lua, dynamic loading, EtherCAT, KDL and sensor I/O.
