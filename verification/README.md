# OSPREY search bookkeeping, modelled in Dafny

This project models the bookkeeping core of OSPREY, a protein-design package. It covers:

- the conformation index that A* search keeps per node (`ConfIndex`);
- the multi-sequence A* scoring tree (`MultiSequenceConfTree`);
- the dead-end-elimination pruning loop (`PruningControl`);
- the traditional K* partition-function estimator (`PFAbstract`, `PFTrad`);
- the discrete partition function of multistate K* (`PartitionFunctionDiscrete`);
- the choice of conformation search (`ConfSearchFactory`);
- matrix caching in `SearchProblem`;
- the counters of the thread-pool executor (`ThreadPoolTaskExecutor`);
- the GPU command-queue pool (`GpuQueuePool`);
- the configuration checks of multistate design (`InputValidation`);
- D-amino-acid naming (`DAminoAcidHandler`);
- path roots and line iteration (`FileTools`);
- rotamer-library extraction (`rotLibWriter`).

There is one Dafny module per Java class. Shared pieces live in three modules:

- `Wrappers`: `Option`, `Result` and `Outcome`. A Java exception becomes a `Failure` with a small error tag.
- `Strings`: lower-casing, case-insensitive equality, decimal digits.
- `JavaInt`: 32-bit wrap-around and `long` narrowing.

Some inputs become parameters of the model:

- energy matrices and Boltzmann weights;
- the conformation stream of A*;
- the pruning passes;
- the counts the pruning matrix reports;
- the tables of `HardCodedResidueInfo`.

`BigDecimal` and `double` arithmetic is modelled with Dafny's exact `real`. Java `int` addition is modelled with explicit wrap-around where its width matters.

## Model

| member | source | states |
|---|---|---|
| `ConfIndex.Positions` | src/edu/duke/cs/osprey/astar/conf/ConfIndex.java:161-163 | the defined-position array holds, entry for entry, the position of each defined link |
| `ConfIndex.RCs` | src/edu/duke/cs/osprey/astar/conf/ConfIndex.java:165-167 | the defined-RC array holds, entry for entry, the RC of each defined link |
| `ConfIndex.InsertByPos` | src/edu/duke/cs/osprey/astar/conf/ConfIndex.java:66-79 | inserting a link into a position-sorted list keeps it sorted, adds exactly that link and loses nothing |
| `ConfIndex.InsertByPosStrict` | src/edu/duke/cs/osprey/astar/conf/ConfIndex.java:66-79 | inserting a link whose position is new keeps the positions strictly increasing |
| `ConfIndex.SortByPos` | src/edu/duke/cs/osprey/astar/conf/ConfIndex.java:63-79 | sorting a node's chain by position is a permutation of the chain and is sorted |
| `ConfIndex.SortDistinctIsIncreasing` | src/edu/duke/cs/osprey/astar/conf/ConfIndex.java:63-79 | a chain without repeated positions sorts into strictly increasing positions |
| `ConfIndex.SplitFrom` | src/edu/duke/cs/osprey/astar/conf/ConfIndex.java:80-86 | every position from `pos` up is either defined or undefined and never both; both sides are increasing and in range |
| `ConfIndex.IndexNode` | src/edu/duke/cs/osprey/astar/conf/ConfIndex.java:33-87 | indexing the node already indexed changes nothing; indexing another node yields a valid index whose defined links come from the node's chain |
| `ConfIndex.IndexNodeIdempotent` | src/edu/duke/cs/osprey/astar/conf/ConfIndex.java:36-39 | indexing the same node twice gives the same index as indexing it once |
| `ConfIndex.SplitConsumesLinks` | src/edu/duke/cs/osprey/astar/conf/ConfIndex.java:80-86 | the split puts every link of an increasing in-range list on the defined side |
| `ConfIndex.IndexNodeDefinesChain` | src/edu/duke/cs/osprey/astar/conf/ConfIndex.java:33-87 | indexing a well-formed chain defines exactly the chain's links in position order, and the remaining positions are undefined |
| `ConfIndex.InsertAtRankIsSplice` | src/edu/duke/cs/osprey/astar/conf/ConfIndex.java:101-125 | inserting by position splices the new link in at its rank |
| `ConfIndex.RankBounds` | src/edu/duke/cs/osprey/astar/conf/ConfIndex.java:101-125 | the links before the rank lie below the new position, and the links from the rank on do not |
| `ConfIndex.RemovePosMembers` | src/edu/duke/cs/osprey/astar/conf/ConfIndex.java:127-133 | removing a position from the undefined list keeps exactly the other positions |
| `ConfIndex.RemovePosAbsent` | src/edu/duke/cs/osprey/astar/conf/ConfIndex.java:127-133 | removing a position that is not listed changes nothing |
| `ConfIndex.RemovePosSplits` | src/edu/duke/cs/osprey/astar/conf/ConfIndex.java:127-133 | putting the removed position back at one place rebuilds the undefined list |
| `ConfIndex.RemovePosKeepsOrder` | src/edu/duke/cs/osprey/astar/conf/ConfIndex.java:127-133 | the undefined positions stay strictly increasing after the removal |
| `ConfIndex.RemovePosInRange` | src/edu/duke/cs/osprey/astar/conf/ConfIndex.java:127-133 | the undefined positions stay within range after the removal |
| `ConfIndex.InsertByPosPositions` | src/edu/duke/cs/osprey/astar/conf/ConfIndex.java:101-125 | after the insertion the defined positions are the old ones plus the new one |
| `ConfIndex.InsertByPosInRange` | src/edu/duke/cs/osprey/astar/conf/ConfIndex.java:101-125 | an in-range link keeps the defined positions in range |
| `ConfIndex.DefinedSideInsert` | src/edu/duke/cs/osprey/astar/conf/ConfIndex.java:101-125 | the defined side gains the next position at its sorted place and stays increasing and in range |
| `ConfIndex.InsertAtRank` | src/edu/duke/cs/osprey/astar/conf/ConfIndex.java:101-125 | the new link lands after every smaller position and before every larger one |
| `ConfIndex.UndefinedSideRemove` | src/edu/duke/cs/osprey/astar/conf/ConfIndex.java:127-133 | the undefined side loses exactly the next position and stays increasing and in range |
| `ConfIndex.IndexNext` | src/edu/duke/cs/osprey/astar/conf/ConfIndex.java:90-137 | the child index defines the next position at its sorted place, undefines it, keeps every other position's status and stays valid |
| `ConfIndex.UndefinedDeterminedByDefined` | src/edu/duke/cs/osprey/astar/conf/ConfIndex.java:173-189 | in a valid index the undefined positions are determined by the defined ones |
| `ConfIndex.IsDefined` | src/edu/duke/cs/osprey/astar/conf/ConfIndex.java:173-180 | a position is defined exactly when some defined link has it |
| `ConfIndex.UndefinedIsComplement` | src/edu/duke/cs/osprey/astar/conf/ConfIndex.java:173-189 | in a valid index a position in range is undefined exactly when it is not defined; one out of range is neither |
| `ConfIndex.RemovePos` | src/edu/duke/cs/osprey/astar/conf/ConfIndex.java:127-133 | the removed position no longer occurs and the list does not grow |
| `ConfIndex.Rank` | src/edu/duke/cs/osprey/astar/conf/ConfIndex.java:101-125 | every defined position before the rank is below the new one and the one at the rank is not |
| `ConfIndex.InRangeExcludes` | src/edu/duke/cs/osprey/astar/conf/ConfIndex.java:182-189 | a position outside the index's range is never listed as undefined |
| `ConfIndex.ChainIndexLacks` | src/edu/duke/cs/osprey/astar/conf/ConfIndex.java:173-189 | a position the chain does not assign is undefined and not defined after indexing |
| `ConfIndex.IncrementalMatchesFull` | src/edu/duke/cs/osprey/astar/conf/ConfIndex.java:90-137 | extending a parent's index by one position equals indexing the child's full chain from scratch |
| `ConfIndex.IncreasingIntsEqual` | src/edu/duke/cs/osprey/astar/conf/ConfIndex.java:127-133 | two strictly increasing lists with the same members are equal |
| `MultiSequenceConfTree.IndexMap` | src/edu/duke/cs/osprey/multistatekstar/MultiSequenceConfTree.java:50-58 | index i maps to the i-th allowed position, then to the not-allowed positions in order |
| `MultiSequenceConfTree.Range` | src/edu/duke/cs/osprey/multistatekstar/MultiSequenceConfTree.java:59 | the positions 0..n-1 as a set have n members |
| `MultiSequenceConfTree.DistinctElementsSize` | src/edu/duke/cs/osprey/multistatekstar/MultiSequenceConfTree.java:59 | a list without repeats has as many members as entries |
| `MultiSequenceConfTree.IndexMapIsPermutation` | src/edu/duke/cs/osprey/multistatekstar/MultiSequenceConfTree.java:50-59 | when the two lists partition the positions, the index map is a bijection onto all positions |
| `MultiSequenceConfTree.IndexMapIsConcat` | src/edu/duke/cs/osprey/multistatekstar/MultiSequenceConfTree.java:50-58 | the index map reads the allowed list followed by the not-allowed list |
| `MultiSequenceConfTree.BestOver` | src/edu/duke/cs/osprey/multistatekstar/MultiSequenceConfTree.java:116-120 | the min (or max) over RCs is one of the candidates and at least as good as each; it is infinite only when every candidate is |
| `MultiSequenceConfTree.AbsTuple` | src/edu/duke/cs/osprey/multistatekstar/MultiSequenceConfTree.java:94-100 | the absolute tuple has at most n entries and none carries the unassigned RC -1 |
| `MultiSequenceConfTree.DefinedSlots` | src/edu/duke/cs/osprey/multistatekstar/MultiSequenceConfTree.java:94-100 | the slots the tuple is built from are assigned, below n and strictly increasing |
| `MultiSequenceConfTree.DefinedSlotsComplete` | src/edu/duke/cs/osprey/multistatekstar/MultiSequenceConfTree.java:94-100 | every assigned slot below n is among them |
| `MultiSequenceConfTree.AbsTupleAt` | src/edu/duke/cs/osprey/multistatekstar/MultiSequenceConfTree.java:94-100 | entry k of the tuple is the mapped position of the k-th assigned slot with that slot's RC |
| `MultiSequenceConfTree.AbsTupleListsDefined` | src/edu/duke/cs/osprey/multistatekstar/MultiSequenceConfTree.java:94-100 | every assigned slot below n appears in the tuple with its mapped position and RC |
| `MultiSequenceConfTree.ScoreNode` | src/edu/duke/cs/osprey/multistatekstar/MultiSequenceConfTree.java:102-132 | a traditional tree scores a node as g-score plus h-score; the score is infinite exactly when some position is unassigned and some position has no unpruned RC; a fully assigned conf scores its g-score; any other tree is unsupported |
| `MultiSequenceConfTree.NoHigherOrderIsPairwise` | src/edu/duke/cs/osprey/multistatekstar/MultiSequenceConfTree.java:166-178 | without higher-order terms an RC pair contributes exactly its pairwise energy |
| `MultiSequenceConfTree.ChargedSumUnboundedIff` | src/edu/duke/cs/osprey/multistatekstar/MultiSequenceConfTree.java:134-164 | an undefined RC's contribution is infinite exactly when some position it is charged against has no unpruned RC |
| `MultiSequenceConfTree.LaterUndefinedNotCharged` | src/edu/duke/cs/osprey/multistatekstar/MultiSequenceConfTree.java:144-146 | a later undefined position does not affect an RC's contribution |
| `MultiSequenceConfTree.AbsTupleSameMap` | src/edu/duke/cs/osprey/multistatekstar/MultiSequenceConfTree.java:94-100 | the absolute tuple depends only on the position lists |
| `MultiSequenceConfTree.AbsTupleEntries` | src/edu/duke/cs/osprey/multistatekstar/MultiSequenceConfTree.java:94-100 | the entries come from assigned slots in increasing slot order, each pairing the mapped position with the conf's RC, and every assigned slot is listed |
| `MultiSequenceConfTree.AbsTupleDistinctPositions` | src/edu/duke/cs/osprey/multistatekstar/MultiSequenceConfTree.java:94-100 | when the allowed and not-allowed lists have no repeats, no position appears twice in the tuple |
| `MultiSequenceConfTree.AbsTupleSameDefined` | src/edu/duke/cs/osprey/multistatekstar/MultiSequenceConfTree.java:94-100 | two confs that assign the same slots with the same RCs have the same tuple, whatever their unassigned entries hold |
| `MultiSequenceConfTree.GScoreDependsOnlyOnDefined` | src/edu/duke/cs/osprey/multistatekstar/MultiSequenceConfTree.java:107-108 | the g-score depends only on the defined entries of the conf |
| `MultiSequenceConfTree.HigherOrderContrib` | src/edu/duke/cs/osprey/multistatekstar/MultiSequenceConfTree.java:166-178 | without a higher-order term an RC pair contributes nothing beyond the pairwise charge |
| `MultiSequenceConfTree.UndefinedRCEnergy` | src/edu/duke/cs/osprey/multistatekstar/MultiSequenceConfTree.java:134-164 | an undefined RC's energy is infinite exactly when some position it is charged against has no unpruned RC |
| `MultiSequenceConfTree.PosHScoreUnboundedIff` | src/edu/duke/cs/osprey/multistatekstar/MultiSequenceConfTree.java:110-122 | an unassigned position's h-term is infinite exactly when it has no unpruned RC or some position it is charged against has none |
| `MultiSequenceConfTree.HScore` | src/edu/duke/cs/osprey/multistatekstar/MultiSequenceConfTree.java:110-122 | a finite h-score has a finite term at every unassigned position |
| `MultiSequenceConfTree.HScoreUnboundedIff` | src/edu/duke/cs/osprey/multistatekstar/MultiSequenceConfTree.java:110-122 | the h-score is infinite exactly when some unassigned position's term is |
| `MultiSequenceConfTree.HScoreInfiniteIff` | src/edu/duke/cs/osprey/multistatekstar/MultiSequenceConfTree.java:110-122 | the h-score is infinite exactly when some position is unassigned and some position has no unpruned RC |
| `MultiSequenceConfTree.HScoreOfDefined` | src/edu/duke/cs/osprey/multistatekstar/MultiSequenceConfTree.java:110-122 | the h-score of a fully assigned conf is zero |
| `MultiSequenceConfTree.ChildUndefinedWithinParent` | src/edu/duke/cs/osprey/multistatekstar/MultiSequenceConfTree.java:241-254 | the child conf has an unassigned position only if the parent does, and assigning the parent's last unassigned position leaves none |
| `MultiSequenceConfTree.FullyDefinedHasNoHScore` | src/edu/duke/cs/osprey/multistatekstar/MultiSequenceConfTree.java:114-122 | when every position is assigned, the h-score is zero |
| `MultiSequenceConfTree.FullyDefinedScoreIsGScore` | src/edu/duke/cs/osprey/multistatekstar/MultiSequenceConfTree.java:102-124 | a fully assigned conf scores exactly its g-score |
| `MultiSequenceConfTree.PosComesBeforeIsLexicographic` | src/edu/duke/cs/osprey/multistatekstar/MultiSequenceConfTree.java:224-233 | the order puts defined positions before undefined ones, and orders by number within each group |
| `MultiSequenceConfTree.PosComesBeforeIsStrictTotalOrder` | src/edu/duke/cs/osprey/multistatekstar/MultiSequenceConfTree.java:224-233 | the order is irreflexive, transitive and total |
| `MultiSequenceConfTree.PosComesBefore` | src/edu/duke/cs/osprey/multistatekstar/MultiSequenceConfTree.java:224-233 | a position never comes before itself; a defined position comes before an undefined one and never after it |
| `MultiSequenceConfTree.ChildConf` | src/edu/duke/cs/osprey/multistatekstar/MultiSequenceConfTree.java:241-254 | the child conf assigns the child position and copies every other entry of the parent |
| `MultiSequenceConfTree.ChildDefinesOneMore` | src/edu/duke/cs/osprey/multistatekstar/MultiSequenceConfTree.java:245-253 | the child conf defines the parent's positions plus the child position |
| `MultiSequenceConfTree.ScoreConfDifferential` | src/edu/duke/cs/osprey/multistatekstar/MultiSequenceConfTree.java:235-258 | a differential score is the child conf's own score, and the parent's when there is no child position; a finite parent score gives a finite child score, and assigning the last position gives the child's g-score |
| `PruningControl.RunOnce` | src/edu/duke/cs/osprey/pruning/PruningControl.java:74-124 | the full pairs pass runs exactly when the Goldstein pass pruned nothing new, pre-DACS is off and the algorithm option is at least 3 |
| `PruningControl.SubsetSameSizeEqual` | src/edu/duke/cs/osprey/pruning/PruningControl.java:126-135 | a pruned set inside another of the same size equals it, so counts that stop growing mean pruning stopped |
| `PruningControl.SubsetSize` | src/edu/duke/cs/osprey/pruning/PruningControl.java:126-135 | growing the pruned set never lowers its count |
| `PruningControl.Prune` | src/edu/duke/cs/osprey/pruning/PruningControl.java:48-138 | the loop stops; pruning only grows; the stored counts match the final state; with pair tracking, one more cycle changes nothing |
| `PFAbstract.EffectiveEpsilon` | src/edu/duke/cs/osprey/kstar/pfunc/PFAbstract.java:357-365 | epsilon is -1 when nothing has weight, and otherwise (q'+p*)/(q*+q'+p*), which lies in [0,1] for nonnegative parts |
| `PFAbstract.EpsilonNegativeIffNoWeight` | src/edu/duke/cs/osprey/kstar/pfunc/PFAbstract.java:357-365 | with nonnegative parts, epsilon is negative exactly when the divisor is zero |
| `PFAbstract.EpsilonPossible` | src/edu/duke/cs/osprey/kstar/pfunc/PFAbstract.java:300-308 | epsilon is possible exactly for a reached or not-stable status; otherwise the status becomes not-possible |
| `PFAbstract.UpdateQPrime` | src/edu/duke/cs/osprey/kstar/pfunc/PFAbstract.java:411-413 | q' is the weight of the last bound times the conformations not yet enumerated; nothing else changes |
| `PFAbstract.NumUnEnumerated` | src/edu/duke/cs/osprey/kstar/pfunc/PFAbstract.java:575-577 | the unenumerated count is nonnegative while no more confs are minimized than unpruned, at most the unpruned count, and zero exactly when all are minimized |
| `PFAbstract.UpperBound` | src/edu/duke/cs/osprey/kstar/pfunc/PFAbstract.java:339-344 | a reached estimate bounds by q*; otherwise q' is refreshed and the bound is q*+q' |
| `PFAbstract.LowerBoundBelowUpperBound` | src/edu/duke/cs/osprey/kstar/pfunc/PFAbstract.java:334-344 | the lower bound q* never exceeds the upper bound |
| `PFAbstract.HeadIndex` | src/edu/duke/cs/osprey/kstar/pfunc/PFAbstract.java:247 | the queue head is a conf of highest energy, the first such in the buffer; this is the order under which saving top confs keeps the lowest ones |
| `PFAbstract.RemoveAt` | src/edu/duke/cs/osprey/kstar/pfunc/PFAbstract.java:248 | polling removes exactly one copy of the head |
| `PFAbstract.SaveTopConf` | src/edu/duke/cs/osprey/kstar/pfunc/PFAbstract.java:243-256 | below capacity the conf is added; at capacity it replaces the highest-energy conf only if it is lower; an empty buffer with no capacity is an error, because the queue head is null |
| `PFAbstract.SaveTopConfConserves` | src/edu/duke/cs/osprey/kstar/pfunc/PFAbstract.java:243-256 | the kept confs plus the dropped one are the old confs plus the new one |
| `PFAbstract.SaveTopConfKeepsLowest` | src/edu/duke/cs/osprey/kstar/pfunc/PFAbstract.java:243-256 | every dropped conf is at least as high in energy as every kept one |
| `PFAbstract.ReplacedHeadKeepsLowest` | src/edu/duke/cs/osprey/kstar/pfunc/PFAbstract.java:247-249 | replacing the worst conf with a lower one keeps the lowest confs |
| `PFAbstract.RejectedKeepsLowest` | src/edu/duke/cs/osprey/kstar/pfunc/PFAbstract.java:251-252 | rejecting a conf no lower than the worst keeps the lowest confs |
| `PFAbstract.UndefinedPositions` | src/edu/duke/cs/osprey/kstar/pfunc/PFAbstract.java:122-126 | the undefined positions are the positions below numPos that are not flexible residues, in increasing order |
| `PFAbstract.RCNumAtPos` | src/edu/duke/cs/osprey/kstar/pfunc/PFAbstract.java:132-139 | the factor is the min (or max) of the per-AA counts, and the int extreme when there are none |
| `PFAbstract.CountsAt` | src/edu/duke/cs/osprey/kstar/pfunc/PFAbstract.java:134-137 | one unpruned count per allowed AA type, in order |
| `PFAbstract.MulZeroIff` | src/edu/duke/cs/osprey/kstar/pfunc/PFAbstract.java:141 | a product is zero exactly when a factor is |
| `PFAbstract.ProductOverZeroIff` | src/edu/duke/cs/osprey/kstar/pfunc/PFAbstract.java:130-142 | the running product is zero exactly when one position's factor is zero |
| `PFAbstract.ProductUndefinedRotsZeroIff` | src/edu/duke/cs/osprey/kstar/pfunc/PFAbstract.java:117-145 | the product over undefined positions is zero exactly when some undefined position has a zero factor |
| `PFAbstract.ProductUndefinedRots` | src/edu/duke/cs/osprey/kstar/pfunc/PFAbstract.java:117-145 | when every undefined position has a single RC for its best amino acid the product is one |
| `PFAbstract.ProductOfOnes` | src/edu/duke/cs/osprey/kstar/pfunc/PFAbstract.java:130-142 | a running product of factors that are all one is one |
| `PFAbstract.AdjustQStar` | src/edu/duke/cs/osprey/kstar/pfunc/PFAbstract.java:148-158 | q* is scaled by the product only when the estimate is reached, the sequence is partial and the product is nonzero |
| `PFAbstract.TruncTowardZero` | src/edu/duke/cs/osprey/kstar/pfunc/PFAbstract.java:501 | `toBigInteger` truncates toward zero on both signs |
| `PFAbstract.PruningTarget` | src/edu/duke/cs/osprey/kstar/pfunc/PFAbstract.java:500-502 | with x = q*·ρ/bE0, the target lies in [x-1, x) when pruned-x+1 is nonnegative, and in (x-2, x-1] otherwise |
| `PFAbstract.WidenPruningWindow` | src/edu/duke/cs/osprey/kstar/pfunc/PFAbstract.java:511-524 | the window widens by one, capped at 100, until the pruned count meets the target or the cap is hit; every earlier window missed the target |
| `PFAbstract.Restart` | src/edu/duke/cs/osprey/kstar/pfunc/PFAbstract.java:482-549 | a zero weight jumps to window 100; otherwise the window chosen is the first widened window that meets the target or reaches 100, and it either meets the target and resets the counters, or leaves the status not-possible; a target epsilon of 1 is an error |
| `PFAbstract.SetNumPEs` | src/edu/duke/cs/osprey/kstar/pfunc/PFAbstract.java:609-617 | the count is clamped into [1, available processors]: a request below one gives one, one above the processors gives their number |
| `PFAbstract.SetNumPEsIdempotent` | src/edu/duke/cs/osprey/kstar/pfunc/PFAbstract.java:609-617 | clamping twice is clamping once |
| `PFAbstract.SetConfsThreadBuffer` | src/edu/duke/cs/osprey/kstar/pfunc/PFAbstract.java:645-647 | only a positive size replaces the buffer size, so a positive buffer stays positive |
| `PFAbstract.SetNumRemoteClients` | src/edu/duke/cs/osprey/kstar/pfunc/PFAbstract.java:656-660 | the client count is the smaller of the request and the server count, which is at least one |
| `PFAbstract.SetStabilityThresh` | src/edu/duke/cs/osprey/kstar/pfunc/PFAbstract.java:683-686 | a negative threshold becomes zero, any other is kept, and clamping again changes nothing |
| `PFAbstract.SetMaxKSConfs` | src/edu/duke/cs/osprey/kstar/pfunc/PFAbstract.java:694-697 | a request below one becomes one, a positive request is kept, and the cap is at least one |
| `PFAbstract.SettersIdempotent` | src/edu/duke/cs/osprey/kstar/pfunc/PFAbstract.java:683-697 | clamping the stability threshold or the conf cap twice is clamping once |
| `PFAbstract.MaxKSConfsReached` | src/edu/duke/cs/osprey/kstar/pfunc/PFAbstract.java:700-702 | in the long range, the cap is reached exactly when it is enabled and the minimized count meets it |
| `PFAbstract.SetCFGImpl` | src/edu/duke/cs/osprey/kstar/pfunc/PFAbstract.java:720-736 | a name is accepted exactly when its lower-case form is one of the six methods, and it is stored as given |
| `PFAbstract.MethodsAreLowerCase` | src/edu/duke/cs/osprey/kstar/pfunc/PFAbstract.java:722-730 | the six method names are already lower case, so each is accepted as spelled |
| `PFAbstract.SetCFGImplAcceptsAnyCase` | src/edu/duke/cs/osprey/kstar/pfunc/PFAbstract.java:720-730 | every spelling of any of the six methods that differs only in letter case is accepted and stored as given |
| `PFAbstract.SetCFGImplRejectsUnknown` | src/edu/duke/cs/osprey/kstar/pfunc/PFAbstract.java:720-734 | every name that matches none of the six methods in any case is rejected |
| `PFTrad.UpdateQStar` | src/edu/duke/cs/osprey/kstar/pfunc/PFAbstract.java:416-427 | q* gains the conf's weight and both minimized counters go up by one; with saving on, the top-conf buffer is the buffer after saving this conf, and with saving off it is unchanged |
| `PFTrad.Charged` | src/edu/duke/cs/osprey/kstar/pfunc/impl/PFTrad.java:105-142 | after charging a conf, q* holds its weight, q' covers the remaining confs at its bound, and epsilon is recomputed from them |
| `PFTrad.Accumulate` | src/edu/duke/cs/osprey/kstar/pfunc/impl/PFTrad.java:105-162 | the status becomes not-possible exactly for negative epsilon and reached exactly when epsilon meets the target or the cap is hit; q* is scaled only for a reached partial sequence |
| `PFTrad.Conclude` | src/edu/duke/cs/osprey/kstar/pfunc/impl/PFTrad.java:142-161 | the status decision after charging, and the q* adjustment it triggers |
| `PFTrad.AccumulateNeverImpossible` | src/edu/duke/cs/osprey/kstar/pfunc/impl/PFTrad.java:141-147 | with positive weights and confs left, a charged conf never makes epsilon impossible |
| `PFTrad.Iterate` | src/edu/duke/cs/osprey/kstar/pfunc/impl/PFTrad.java:51-69 | a conf is accumulated and consumed; an exhausted stream turns an unreached estimate into not-possible |
| `PFTrad.Compute` | src/edu/duke/cs/osprey/kstar/pfunc/impl/PFTrad.java:87-102 | the loop agrees with the reference iteration, ends with a decided status, and does nothing when the status is already decided |
| `PFTrad.Step` | src/edu/duke/cs/osprey/kstar/pfunc/impl/PFTrad.java:91-95 | one pass of the loop accumulates the head conf and drops it, or settles the status when the stream is empty; either way the reference outcome is kept |
| `PFTrad.IterateShape` | src/edu/duke/cs/osprey/kstar/pfunc/impl/PFTrad.java:51-62 | one iteration consumes exactly the stream's head, counts one more minimized conf, and keeps the reference outcome |
| `PFTrad.RunToCompletion` | src/edu/duke/cs/osprey/kstar/pfunc/PFAbstract.java:459-471 | a failed first run is its error; a not-possible first run restarts unless the target epsilon is 1, which is an error; a restart that is not possible again is the result, and one that restarts the count runs the computation again over the new stream with zero minimized confs |
| `PartitionFunctionDiscrete.UpdateStatus` | src/edu/duke/cs/osprey/multistatekstar/PartitionFunctionDiscrete.java:86-93 | an undefined epsilon means not enough finite energies, and epsilon within target means estimated |
| `PartitionFunctionDiscrete.ScoreOne` | src/edu/duke/cs/osprey/multistatekstar/PartitionFunctionDiscrete.java:59-94 | a zero weight stops the loop; an estimating state adds the weight to q*, updates q' and the counts; an estimated state stays estimated |
| `PartitionFunctionDiscrete.RunByCount` | src/edu/duke/cs/osprey/multistatekstar/PartitionFunctionDiscrete.java:47-95 | the loop consumes a prefix of the stream, one evaluation per conf, never passes the stop count, and stops only for a documented reason |
| `PartitionFunctionDiscrete.StopAtConf` | src/edu/duke/cs/osprey/multistatekstar/PartitionFunctionDiscrete.java:45 | the corrected stop count is the true sum, saturated to the int range |
| `PartitionFunctionDiscrete.AsWrittenLargeCapEvaluatesNothing` | src/edu/duke/cs/osprey/multistatekstar/PartitionFunctionDiscrete.java:45-52 | with the wrapping sum, asking for `Integer.MAX_VALUE` more confs after one evaluation stops at once |
| `PartitionFunctionDiscrete.StopAtConfAsWritten` | src/edu/duke/cs/osprey/multistatekstar/PartitionFunctionDiscrete.java:45 | the int stop count is the sum when it fits, and wraps negative when it exceeds Integer.MAX_VALUE |
| `PartitionFunctionDiscrete.ComputeAsWritten` | src/edu/duke/cs/osprey/multistatekstar/PartitionFunctionDiscrete.java:37-96 | as written, a status that cannot continue is an error; when the int sum does not wrap, the loop stops where the corrected stop count says |
| `PartitionFunctionDiscrete.Compute` | src/edu/duke/cs/osprey/multistatekstar/PartitionFunctionDiscrete.java:37-96 | a status that cannot continue is an error; otherwise at most maxNumConfs confs are consumed and, if any are asked for and available, at least one is |
| `PartitionFunctionDiscrete.RunByCountQStarGrows` | src/edu/duke/cs/osprey/multistatekstar/PartitionFunctionDiscrete.java:68-73 | with nonnegative weights q* never decreases |
| `PartitionFunctionDiscrete.EstimatedIsFinal` | src/edu/duke/cs/osprey/multistatekstar/PartitionFunctionDiscrete.java:55-68 | an estimated partition function stays estimated and its q* is unchanged |
| `PartitionFunctionDiscrete.RunByWeight` | src/edu/duke/cs/osprey/multistatekstar/PartitionFunctionDiscrete.java:107-157 | q* and the score weights grow together, and the loop stops only at the target, the end of the stream, a zero weight or a final status |
| `PartitionFunctionDiscrete.ComputeToWeight` | src/edu/duke/cs/osprey/multistatekstar/PartitionFunctionDiscrete.java:98-158 | a status that cannot continue is an error, and a target already met consumes nothing |
| `PartitionFunctionDiscrete.UpdateQprime` | src/edu/duke/cs/osprey/multistatekstar/PartitionFunctionDiscrete.java:160-162 | q' is nonnegative for nonnegative inputs, and zero when nothing is left to score |
| `ConfSearchFactory.Make` | src/edu/duke/cs/osprey/control/ConfSearchFactory.java:33-90 | mismatched matrices are an error; higher-order needs give the full tree, partial multi-sequence problems the multi-sequence tree, otherwise A* whose scorer and order follow the MPLP iteration count, with the MPLP iteration count and convergence threshold passed through unchanged |
| `ConfSearchFactory.AStarOrderMatchesScorer` | src/edu/duke/cs/osprey/control/ConfSearchFactory.java:61-84 | the dynamic order goes with the traditional scorer and the static order with MPLP |
| `ConfSearchFactory.FullTreeIgnoresLaterChoices` | src/edu/duke/cs/osprey/control/ConfSearchFactory.java:39-43 | once the full tree is needed, no later setting changes the choice |
| `ConfSearchFactory.TraditionalIgnoresMPLPSettings` | src/edu/duke/cs/osprey/control/ConfSearchFactory.java:61-66 | with no MPLP iterations, the MPLP algorithm and threshold do not matter |
| `ConfSearchFactory.NodeUpdaterAnyCase` | src/edu/duke/cs/osprey/control/ConfSearchFactory.java:72-76 | an MPLP algorithm named "node" in any case gives the node updater, and every other name gives the edge updater |
| `SearchProblem.SetSlot` | src/edu/duke/cs/osprey/confspace/SearchProblem.java:407-412 | loading sets exactly the slot of the requested matrix type |
| `SearchProblem.MatrixFileName` | src/edu/duke/cs/osprey/confspace/SearchProblem.java:271 | the cache file is the problem name, the type name and ".dat" |
| `SearchProblem.MatrixFileNamesDistinct` | src/edu/duke/cs/osprey/confspace/SearchProblem.java:271 | different matrix types never share a cache file |
| `SearchProblem.MatrixValid` | src/edu/duke/cs/osprey/confspace/SearchProblem.java:420-432 | an infinite interval is always valid; a finite one needs pruning done and an interval no smaller than the current one |
| `SearchProblem.LoadMatrixFromFile` | src/edu/duke/cs/osprey/confspace/SearchProblem.java:400-433 | a missing file empties the slot; a present one fills it and reports its validity |
| `SearchProblem.LoadMatrix` | src/edu/duke/cs/osprey/confspace/SearchProblem.java:269-279 | loading fails exactly when a cached or newly computed matrix cannot be checked for validity; a valid cached matrix is loaded without rewriting; a missing or stale one is computed, loaded and written to its file; no other slot changes |
| `SearchProblem.LoadValidCachedMatrix` | src/edu/duke/cs/osprey/confspace/SearchProblem.java:274 | a valid cached matrix is loaded without recomputing or rewriting |
| `SearchProblem.LoadMatrixIdempotent` | src/edu/duke/cs/osprey/confspace/SearchProblem.java:269-279 | loading again after a successful load changes nothing |
| `SearchProblem.SearchNeedsHigherOrderTerms` | src/edu/duke/cs/osprey/confspace/SearchProblem.java:437-444 | the answer comes from the tuple-expansion or the energy matrix as configured, and a missing matrix is an error |
| `SearchProblem.MinimizedEnergy` | src/edu/duke/cs/osprey/confspace/SearchProblem.java:169-184 | with voxel free energy the energy is the free energy, whatever the correction flags say (the other cases are tied down by MinimizedEnergyCorrections) |
| `SearchProblem.MinimizedEnergyCorrections` | src/edu/duke/cs/osprey/confspace/SearchProblem.java:175-183 | reference energies subtract their term, residue entropy adds its own, and with neither the energy is the minimized one |
| `ThreadPoolTaskExecutor.Reset` | src/edu/duke/cs/osprey/parallelism/ThreadPoolTaskExecutor.java:31-37 | a reset opens submissions with all counters at zero |
| `ThreadPoolTaskExecutor.ResetConsistent` | src/edu/duke/cs/osprey/parallelism/ThreadPoolTaskExecutor.java:31-37 | a reset state is consistent and has nothing pending |
| `ThreadPoolTaskExecutor.RecordSubmission` | src/edu/duke/cs/osprey/parallelism/ThreadPoolTaskExecutor.java:39-44 | a submission adds one pending task, after resetting a closed round |
| `ThreadPoolTaskExecutor.WaitForSignal` | src/edu/duke/cs/osprey/parallelism/ThreadPoolTaskExecutor.java:47-50 | waiting closes submissions and touches no counter |
| `ThreadPoolTaskExecutor.RecordResult` | src/edu/duke/cs/osprey/parallelism/ThreadPoolTaskExecutor.java:52-66 | a result counts as a win or a fail, removes one pending task, and signals exactly when the counts catch up |
| `ThreadPoolTaskExecutor.RecordResultConsistent` | src/edu/duke/cs/osprey/parallelism/ThreadPoolTaskExecutor.java:52-66 | results never outnumber submissions, and the signal comes exactly at the last pending task |
| `ThreadPoolTaskExecutor.RecordResults` | src/edu/duke/cs/osprey/parallelism/ThreadPoolTaskExecutor.java:119-120 | a run of results removes that many pending tasks |
| `ThreadPoolTaskExecutor.SignalOnlyAtLastResult` | src/edu/duke/cs/osprey/parallelism/ThreadPoolTaskExecutor.java:52-66 | over all pending results, the signal fires at the last one only, and every task ends up counted |
| `ThreadPoolTaskExecutor.RunTask` | src/edu/duke/cs/osprey/parallelism/ThreadPoolTaskExecutor.java:76-85 | a throwing task is replaced by the failed marker |
| `ThreadPoolTaskExecutor.ListenResult` | src/edu/duke/cs/osprey/parallelism/ThreadPoolTaskExecutor.java:102-121 | a result is a failure for the failed marker or a throwing listener, and a listener is called only for listening tasks |
| `ThreadPoolTaskExecutor.FailureTagging` | src/edu/duke/cs/osprey/parallelism/ThreadPoolTaskExecutor.java:76-121 | a task fails exactly when it or its listener throws, and its listener runs only if the task did not throw |
| `ThreadPoolTaskExecutor.Start` | src/edu/duke/cs/osprey/parallelism/ThreadPoolTaskExecutor.java:154-176 | starting throws an illegal capacity, changing nothing, exactly when twice the thread count as an int is below one; it throws an illegal thread count exactly when the capacity is fine but the count is negative, after the pool is started and the finish state reset; otherwise the pool is started and the finish state reset |
| `ThreadPoolTaskExecutor.StartNeedsThreads` | src/edu/duke/cs/osprey/parallelism/ThreadPoolTaskExecutor.java:154-165 | for every int thread count, starting returns normally exactly for 1 to 2^30 - 1 threads |
| `ThreadPoolTaskExecutor.HalfStartAcceptsSubmissions` | src/edu/duke/cs/osprey/parallelism/ThreadPoolTaskExecutor.java:154-165 | the thread-list failure happens exactly for counts from -2^31 + 1 to -2^30 - 1, and the half-started pool then accepts submissions |
| `ThreadPoolTaskExecutor.Submit` | src/edu/duke/cs/osprey/parallelism/ThreadPoolTaskExecutor.java:179-196 | submitting before start is an error, and otherwise records one submission |
| `ThreadPoolTaskExecutor.SubmitBatch` | src/edu/duke/cs/osprey/parallelism/ThreadPoolTaskExecutor.java:179-196 | n submissions to a started pool add n pending tasks and keep the counts consistent |
| `GpuQueuePool.QueuesByGpu` | src/edu/duke/cs/osprey/gpu/opencl/GpuQueuePool.java:34-43 | each used GPU gets its own queues, none for a nonpositive count |
| `GpuQueuePool.NewPool` | src/edu/duke/cs/osprey/gpu/opencl/GpuQueuePool.java:26-59 | at most the GPUs present are used; the queues are flattened round by round, are distinct and all start free; a negative GPU count or a negative int capacity is refused, and nonnegative counts with an in-range capacity succeed |
| `GpuQueuePool.Round` | src/edu/duke/cs/osprey/gpu/opencl/GpuQueuePool.java:49-51 | one round takes the i-th queue of each GPU, in GPU order |
| `GpuQueuePool.RoundAppend` | src/edu/duke/cs/osprey/gpu/opencl/GpuQueuePool.java:48-52 | appending a round extends the round-by-round layout by one |
| `GpuQueuePool.FirstFree` | src/edu/duke/cs/osprey/gpu/opencl/GpuQueuePool.java:76-81 | the lowest free index from a start, or none when all are taken |
| `GpuQueuePool.Checkout` | src/edu/duke/cs/osprey/gpu/opencl/GpuQueuePool.java:73-84 | checkout takes the lowest-index free queue and marks only it; it fails exactly when every queue is out |
| `GpuQueuePool.Release` | src/edu/duke/cs/osprey/gpu/opencl/GpuQueuePool.java:86-93 | every entry of the released queue becomes free, and nothing else changes |
| `GpuQueuePool.PoolQueuesDistinct` | src/edu/duke/cs/osprey/gpu/opencl/GpuQueuePool.java:34-52 | the flattened queues are pairwise distinct |
| `GpuQueuePool.CheckoutReleaseRoundTrip` | src/edu/duke/cs/osprey/gpu/opencl/GpuQueuePool.java:73-93 | releasing the queue just checked out restores the flags |
| `InputValidation.HandleObjFcn` | src/edu/duke/cs/osprey/multistatekstar/InputValidation.java:31-37 | the objective passes exactly when it has one coefficient per state and none is zero; the count is checked first |
| `InputValidation.HandleConstraints` | src/edu/duke/cs/osprey/multistatekstar/InputValidation.java:39-44 | constraints pass exactly when each has one coefficient per state |
| `InputValidation.DoMinimizeFrom` | src/edu/duke/cs/osprey/multistatekstar/InputValidation.java:107-119 | the loop passes exactly when every non-null state agrees, and otherwise reports the first disagreeing state's error |
| `InputValidation.HandleDoMinimize` | src/edu/duke/cs/osprey/multistatekstar/InputValidation.java:105-120 | the check passes exactly when state 0 exists and every non-null state has IMINDEE equal to DOMINIMIZE equal to state 0's |
| `InputValidation.DoMinimizeAgreement` | src/edu/duke/cs/osprey/multistatekstar/InputValidation.java:105-120 | after the check passes, all non-null states carry the same two flags |
| `InputValidation.Insert` | src/edu/duke/cs/osprey/multistatekstar/InputValidation.java:185 | inserting into a sorted list keeps it sorted and adds exactly the value |
| `InputValidation.ConsSorted` | src/edu/duke/cs/osprey/multistatekstar/InputValidation.java:185 | a value no larger than the head can be put in front |
| `InputValidation.Sort` | src/edu/duke/cs/osprey/multistatekstar/InputValidation.java:185 | sorting yields a sorted permutation |
| `InputValidation.SortTwo` | src/edu/duke/cs/osprey/multistatekstar/InputValidation.java:214 | two limits sort to their minimum and maximum |
| `InputValidation.WrappedSum` | src/edu/duke/cs/osprey/multistatekstar/InputValidation.java:159-160 | the sum of the strand counts stays in the int range |
| `InputValidation.Int32Congruent` | src/edu/duke/cs/osprey/multistatekstar/InputValidation.java:160 | two ints that agree modulo 2^32 are equal |
| `InputValidation.WrappedSumIsWrap` | src/edu/duke/cs/osprey/multistatekstar/InputValidation.java:159-160 | adding with wrap-around term by term gives the wrapped true sum |
| `InputValidation.ModSum` | src/edu/duke/cs/osprey/multistatekstar/InputValidation.java:160 | multiples of 2^32 are closed under sum and difference |
| `InputValidation.BoundsCheckNeverFires` | src/edu/duke/cs/osprey/multistatekstar/InputValidation.java:186-189 | the residue-bounds test can never reject a residue |
| `InputValidation.CheckStrand` | src/edu/duke/cs/osprey/multistatekstar/InputValidation.java:165-195 | one strand passes exactly when its distinct residues match the count, its limit line has two tokens, and every residue has a RESALLOWED entry; it contributes its residues |
| `InputValidation.CheckStrands` | src/edu/duke/cs/osprey/multistatekstar/InputValidation.java:164-196 | the loop passes exactly when every strand does, and collects the union of their residues |
| `InputValidation.CheckDisjoint` | src/edu/duke/cs/osprey/multistatekstar/InputValidation.java:209-219 | the first two strands pass when either lies above the other; with two limits each, overlap is the only error |
| `InputValidation.DisjointMeansNoSharedResidue` | src/edu/duke/cs/osprey/multistatekstar/InputValidation.java:209-219 | with two limits per strand, the check rejects exactly the strands that share a residue number |
| `InputValidation.CheckDisjointOfLimits` | src/edu/duke/cs/osprey/multistatekstar/InputValidation.java:209-219 | the check compares the ranges the limits span, in either order |
| `InputValidation.CheckResAllowed` | src/edu/duke/cs/osprey/multistatekstar/InputValidation.java:199-206 | when there are more RESALLOWED entries than mutable residues, every one must be mutable |
| `InputValidation.CheckHeader` | src/edu/duke/cs/osprey/multistatekstar/InputValidation.java:124-162 | the header passes exactly when epsilon is in [0,1), the counts agree and the strand counts sum to NUMMUTRES |
| `InputValidation.HandleStateParams` | src/edu/duke/cs/osprey/multistatekstar/InputValidation.java:122-220 | a state's parameters pass exactly when every declarative requirement holds |
| `InputValidation.CompareAAOptions` | src/edu/duke/cs/osprey/multistatekstar/InputValidation.java:78-97 | options correspond exactly when lengths agree and paired standard amino acids match up to case |
| `InputValidation.CompareAAOptionsReflexive` | src/edu/duke/cs/osprey/multistatekstar/InputValidation.java:80-97 | an option list always corresponds to itself |
| `InputValidation.CompareAAOptionsSymmetric` | src/edu/duke/cs/osprey/multistatekstar/InputValidation.java:80-97 | correspondence does not depend on which state is the default |
| `InputValidation.RemoveFirst` | src/edu/duke/cs/osprey/multistatekstar/InputValidation.java:64 | removing a listed name drops its first copy and keeps the others in order; an absent name changes nothing |
| `InputValidation.FirstIndex` | src/edu/duke/cs/osprey/multistatekstar/InputValidation.java:64 | the first index holding a listed name: it holds the name and no earlier one does |
| `InputValidation.PutWildTypeFirst` | src/edu/duke/cs/osprey/multistatekstar/InputValidation.java:60-66 | the wild type goes first, followed by the other options in their order with its first exact copy removed; a copy differing only in case stays |
| `DAminoAcidHandler.InvertIsInverse` | src/edu/duke/cs/osprey/restypes/DAminoAcidHandler.java:40-41 | inverting an injective table gives its exact inverse |
| `DAminoAcidHandler.AltTablesInverse` | src/edu/duke/cs/osprey/restypes/DAminoAcidHandler.java:30-42 | the eight L-to-D entries and the D-to-L table invert each other |
| `DAminoAcidHandler.AltTableInjective` | src/edu/duke/cs/osprey/restypes/DAminoAcidHandler.java:31-38 | no two alternate states share a D name |
| `DAminoAcidHandler.AltTableSize` | src/edu/duke/cs/osprey/restypes/DAminoAcidHandler.java:31-38 | the table has eight entries |
| `DAminoAcidHandler.AltDNamesShape` | src/edu/duke/cs/osprey/restypes/DAminoAcidHandler.java:31-38 | every alternate D name has three letters and no X second |
| `DAminoAcidHandler.AltDNamesNotDX` | src/edu/duke/cs/osprey/restypes/DAminoAcidHandler.java:145-151 | no alternate D name starts with "DX", so the two naming schemes never overlap |
| `DAminoAcidHandler.GetDName` | src/edu/duke/cs/osprey/restypes/DAminoAcidHandler.java:124-135 | names with a one-letter code become "DX" plus the code; alternate states use the table; anything else is an error |
| `DAminoAcidHandler.DNameIffStandard` | src/edu/duke/cs/osprey/restypes/DAminoAcidHandler.java:124-142 | a D name exists exactly for standard L amino acids |
| `DAminoAcidHandler.IsStandardLAminoAcid` | src/edu/duke/cs/osprey/restypes/DAminoAcidHandler.java:138-143 | a name is a standard L amino acid exactly when it has a D name |
| `DAminoAcidHandler.GetLEquivalent` | src/edu/duke/cs/osprey/restypes/DAminoAcidHandler.java:154-160 | a "DX" name is looked up by its code, and other names in the reverse table |
| `DAminoAcidHandler.DNameIffLEquivalent` | src/edu/duke/cs/osprey/restypes/DAminoAcidHandler.java:145-160 | a name is a D-amino-acid name exactly when it has an L equivalent |
| `DAminoAcidHandler.IsDAminoAcidName` | src/edu/duke/cs/osprey/restypes/DAminoAcidHandler.java:145-151 | a name is a D-amino-acid name exactly when it has an L equivalent |
| `DAminoAcidHandler.DNameRoundTrip` | src/edu/duke/cs/osprey/restypes/DAminoAcidHandler.java:124-160 | the L equivalent of a standard amino acid's D name is that amino acid |
| `DAminoAcidHandler.TryRenamingAsD` | src/edu/duke/cs/osprey/restypes/DAminoAcidHandler.java:47-78 | only a chiral standard amino acid with a negative dihedral is renamed, keeping its suffix; missing atoms or a short name are errors |
| `DAminoAcidHandler.RenameRecoversLName` | src/edu/duke/cs/osprey/restypes/DAminoAcidHandler.java:47-78 | a renamed residue's new prefix leads back to its original amino acid |
| `FileTools.NewResourceRoot` | src/edu/duke/cs/osprey/tools/FileTools.java:132-139 | a resource root is accepted exactly when it starts with "/" |
| `FileTools.Resolve` | src/edu/duke/cs/osprey/tools/FileTools.java:146-157 | absolute paths stay as they are; relative ones are joined under the root with "/"; no root is an error |
| `FileTools.StripRoot` | src/edu/duke/cs/osprey/tools/FileTools.java:160-167 | a path under the root loses the root and one more character; a path equal to the root is an index error |
| `FileTools.MakeRelative` | src/edu/duke/cs/osprey/tools/FileTools.java:160-167 | a resource root strips its root, and a missing root is an error |
| `FileTools.MakeRelativeOfResolve` | src/edu/duke/cs/osprey/tools/FileTools.java:146-167 | making a resolved relative path relative gives the path back |
| `FileTools.ResolveOfMakeRelative` | src/edu/duke/cs/osprey/tools/FileTools.java:146-167 | resolving a relative path made across a "/" gives the path back |
| `FileTools.MakeRelativeIgnoresSeparator` | src/edu/duke/cs/osprey/tools/FileTools.java:162-166 | a sibling that merely shares the root's prefix is made relative too |
| `FileTools.FileMakeRelative` | src/edu/duke/cs/osprey/tools/FileTools.java:79-86 | a file root strips its absolute path and one more character |
| `FileTools.FileAndResourceAgree` | src/edu/duke/cs/osprey/tools/FileTools.java:79-86 | file and resource roots make paths relative in the same way |
| `FileTools.FindTerminator` | src/edu/duke/cs/osprey/tools/FileTools.java:264-270 | the first line terminator at or after a start |
| `FileTools.ReadLine` | src/edu/duke/cs/osprey/tools/FileTools.java:264-270 | a line is read up to "\n", "\r" or "\r\n" and holds none of them; end of text gives null |
| `FileTools.Lines` | src/edu/duke/cs/osprey/tools/FileTools.java:249-286 | the lines of a text contain no terminators |
| `FileTools.LinesOfJoinLines` | src/edu/duke/cs/osprey/tools/FileTools.java:249-286 | splitting lines joined by "\n" gives the lines back |
| `FileTools.FindTerminatorAt` | src/edu/duke/cs/osprey/tools/FileTools.java:264-270 | the search finds the first terminator |
| `FileTools.Advance` | src/edu/duke/cs/osprey/tools/FileTools.java:278-282 | after a read, the iterator has the remaining lines of the rest of the text |
| `FileTools.Iterate` | src/edu/duke/cs/osprey/tools/FileTools.java:249-262 | the first iterator of a text holds every line of it |
| `FileTools.NewIterator` | src/edu/duke/cs/osprey/tools/FileTools.java:249-262 | an iterator made from the shared reader holds the reader's remaining lines, and the reader moves past its first line |
| `FileTools.SecondIteratorSkipsFirstLine` | src/edu/duke/cs/osprey/tools/FileTools.java:251-262 | a second iterator over the same text starts after the line the first one read ahead |
| `FileTools.IterableWalkedOnce` | src/edu/duke/cs/osprey/tools/FileTools.java:249-286 | draining the first iterator consumes the shared reader, so a later iterator has no lines |
| `FileTools.HasNext` | src/edu/duke/cs/osprey/tools/FileTools.java:273-275 | there is a next line exactly when lines remain |
| `FileTools.Next` | src/edu/duke/cs/osprey/tools/FileTools.java:278-282 | next returns the first remaining line and drops it; at the end it returns null |
| `FileTools.Drain` | src/edu/duke/cs/osprey/tools/FileTools.java:249-286 | draining an iterator yields its remaining lines |
| `FileTools.ParseLinesYieldsLines` | src/edu/duke/cs/osprey/tools/FileTools.java:249-286 | iterating a text yields exactly its lines, one per call, then stops |
| `FileTools.Skip` | src/edu/duke/cs/osprey/tools/FileTools.java:278-282 | skipping lines keeps the iterator valid |
| `FileTools.SkipRemaining` | src/edu/duke/cs/osprey/tools/FileTools.java:278-282 | skipping k lines drops exactly the first k |
| `RotLibWriter.ReadAt` | src/edu/duke/cs/osprey/control/rotLibWriter.java:114-122 | reading past the end of the file gives null |
| `RotLibWriter.SkipLeadingComments` | src/edu/duke/cs/osprey/control/rotLibWriter.java:86-89 | skipping stops at the first nonempty non-comment line; running out or an empty line is an error |
| `RotLibWriter.SelectRotamers` | src/edu/duke/cs/osprey/control/rotLibWriter.java:119-130 | each kept rotamer line is the one the library lists, read at its index, and there are no more than listed |
| `RotLibWriter.SelectAllListed` | src/edu/duke/cs/osprey/control/rotLibWriter.java:119-130 | an increasing list of valid indices keeps every listed rotamer |
| `RotLibWriter.EntryAt` | src/edu/duke/cs/osprey/control/rotLibWriter.java:105-132 | a matched entry keeps its header and dihedral lines and the selected rotamer lines |
| `RotLibWriter.ScanFindsEntry` | src/edu/duke/cs/osprey/control/rotLibWriter.java:92-144 | a found entry sits at some line whose name matches |
| `RotLibWriter.ReadRotLib` | src/edu/duke/cs/osprey/control/rotLibWriter.java:74-151 | reading succeeds only at a matching entry line after the residue-count line that follows the leading comments |
| `RotLibWriter.NeverFoundIsError` | src/edu/duke/cs/osprey/control/rotLibWriter.java:148-151 | a library without the residue is an error |
| `RotLibWriter.CommentSkipped` | src/edu/duke/cs/osprey/control/rotLibWriter.java:92-96 | a comment line between entries is passed over and the search goes on at the next line |
| `RotLibWriter.OtherEntrySkipped` | src/edu/duke/cs/osprey/control/rotLibWriter.java:135-141 | another residue's entry is skipped with its dihedral and rotamer lines; a negative rotamer count skips none |
| `RotLibWriter.LeadingCommentsIgnored` | src/edu/duke/cs/osprey/control/rotLibWriter.java:85-90 | leading comment lines do not change the result |
| `RotLibWriter.CountLine` | src/edu/duke/cs/osprey/control/rotLibWriter.java:64 | the first output line keeps six header characters and then the rotamer count as Java prints it in decimal, with no leading zeros |
| `RotLibWriter.Printed` | src/edu/duke/cs/osprey/control/rotLibWriter.java:66-70 | each line printed as it is, and a null line printed as "null" |
| `RotLibWriter.WriteRotLib` | src/edu/duke/cs/osprey/control/rotLibWriter.java:61-72 | the output is the count line (six header characters and the decimal rotamer count), the rest of the header, then the selected rotamers; a header shorter than six characters is an error |
| `RotLibWriter.ExtractRotLib` | src/edu/duke/cs/osprey/control/rotLibWriter.java:36-48 | extraction succeeds exactly when the entry is found with a long enough header, and writes its count line, the rest of its header and its rotamers |
| `Strings.ToLower` | src/edu/duke/cs/osprey/kstar/pfunc/PFAbstract.java:722 | lower-casing maps character by character |
| `Strings.NatToString` | src/edu/duke/cs/osprey/control/rotLibWriter.java:64 | a decimal numeral without leading zeros |
| `Strings.NatToStringRoundTrip` | src/edu/duke/cs/osprey/control/rotLibWriter.java:64 | reading back the numeral gives the number |
| `JavaInt.Wrap32` | src/edu/duke/cs/osprey/multistatekstar/PartitionFunctionDiscrete.java:45 | int addition wraps into the int range, modulo 2^32 |
| `JavaInt.Wrap32Positive` | src/edu/duke/cs/osprey/parallelism/ThreadPoolTaskExecutor.java:158-159 | wrapping a value already in the int range keeps its sign |
| `JavaInt.Wrap32Above` | src/edu/duke/cs/osprey/parallelism/ThreadPoolTaskExecutor.java:158-159 | a value at most one turn above the int range wraps down by 2^32 |
| `JavaInt.Wrap32Below` | src/edu/duke/cs/osprey/parallelism/ThreadPoolTaskExecutor.java:158-159 | a value at most one turn below the int range wraps up by 2^32 |
| `JavaInt.LongValue` | src/edu/duke/cs/osprey/kstar/pfunc/PFAbstract.java:701 | `longValue` keeps values in the long range |

## Left out

- Console output, timing and progress reports are left out. They have no effect on the state.
- File and resource I/O is left out: opening, reading and writing files and object streams. A file's text, or a map from file names to matrices, is a parameter.
- Threads, blocking queues, `synchronized` and the `Signal` wait are left out. The executor is modelled as its counter state and a sequence of task results.
- GPU device discovery is left out. The number of GPUs present is a parameter.
- `makeDTemplate` and the coordinate geometry of `tryRenamingAsD` are left out. The measured dihedral is a parameter, and `None` stands for a missing atom.
- The tables of `HardCodedResidueInfo` are a parameter rather than constants.
- `handleAATypeOptions` is left out where it reads the PDB and grows the `AATypeOptions` storage. Only its wild-type insertion and its correspondence check are modelled.
- Number parsing (`Integer.valueOf`, `StringTokenizer`, `getToken`) is left out. Values arrive parsed, and a rotamer-library header line is parsed by a parameter.
- The `STRAND` line filter of `handleStateParams` is taken as a count (`strandLineCount`).
- `getAbsolutePath` is left out. A file root is given by its absolute path.
- `writeTopConfs`, `start()`, `cleanup()`, checkpointing and the sliced runs are left out.
- The canonical energy calls (`minimizeEnergy`, `calcG`, `confERef`, `getConfResEntropy`) are parameters.
- `Status.canContinue` and `PartitionFunction.Values` are not part of this model. `canContinue` holds for the estimating and estimated statuses, and epsilon is undefined exactly when q*+q'+p* is zero.
- The energies and the higher-order term finder of the multi-sequence tree are parameters.
- The recursive higher-order contribution is left out. Only the pairwise charge and whether a higher-order term exists are modelled.
- PFTrad.Iterate: the `minimizedConfsSet.contains(conf)` skip has no branch in the model. The set holds `ArrayList<Integer>` values and the lookup passes an `int[]`, so the test is always false; leaving the branch out matches the code as written.
- PFAbstract.HeadIndex: `KSConfMinEComparator` is not part of this model. The head is taken to be a highest-energy conf, the only order under which `saveTopConf` keeps the lowest-energy confs.
- Strings.ToLower: folds ASCII A–Z only. Java's `toLowerCase` is locale- and Unicode-aware and can change a string's length (for example 'İ').
- PFAbstract.PruningTarget: `divide(bE0, 4)` rounds half-up to the scale of q*·ρ; the model divides exactly, so the bounds are stated for the exact quotient.
- FileTools.NewIterator: iterators over one shared reader are modelled one at a time; interleaving `next()` calls on two live iterators is not modelled.
- PFTrad.Compute: the stream-prefix and minimized-count facts are stated per step in `PFTrad.IterateShape`, not over the whole loop.
- PartitionFunctionDiscrete.Compute: it is stated against the corrected stop count (see Findings). The as-written behaviour is `ComputeAsWritten`.
- PruningControl.Prune: the pruning passes are a parameter, assumed monotone within a finite universe. That assumption is what makes the loop terminate.
- PFTrad.RunToCompletion: `restart()` ends by calling `start()` (PFAbstract.java:546), whose `initPStar()` recomputes p* and E0 from the first conf of the re-pruned tree. `start()` is not modelled, so the second computation after a restart keeps the p* and E0 the first computation left; q* is carried over as in the code, whose reset of q* is commented out.

## Findings

| source | as written | input that shows it | evidently intended | confidence | as-written member | corrected member |
|---|---|---|---|---|---|---|
| src/edu/duke/cs/osprey/multistatekstar/PartitionFunctionDiscrete.java:45 | `stopAtConf = numConfsEvaluated + maxNumConfs` in `int` arithmetic wraps past `Integer.MAX_VALUE` | `numConfsEvaluated = 1`, `maxNumConfs = Integer.MAX_VALUE`: the sum wraps negative and the loop stops before scoring any conf | evaluate up to `maxNumConfs` more confs, with the stop count capped at `Integer.MAX_VALUE` | not executed | `PartitionFunctionDiscrete.AsWrittenLargeCapEvaluatesNothing` | `PartitionFunctionDiscrete.Compute` |

Three more quirks are modelled as written:

- The `minimizedConfsSet.contains(conf)` skip of `PFTrad.iterate` looks up an `int[]` in a set of lists, so it never fires (`PFTrad.Iterate`).
- The strand-bounds test of `handleStateParams` (`res < lo && res > hi`) can never fire (`InputValidation.BoundsCheckNeverFires`).
- `makeRelative` strips the root plus one character without checking that the character is a separator (`FileTools.MakeRelativeIgnoresSeparator`).
