# Read selection for haplotype phasing (whatshap `readselect`)

This project models the read selection that whatshap runs before phasing. It is written in
Dafny, and it states and proves what the selection guarantees.

A read is a sequence of variants, each at a genomic position. The selector picks a subset of
the reads so that no variant position is spanned by more than `max_cov` selected reads. It
tries to cover every position at least once, and it tries to connect the covered positions
into as few phase blocks (connected components) as possible.

It works in rounds. The undecided reads are at first all reads with at least two variants.
Each round does the following:

- **Slice.** It scores every undecided read and puts it in a max-priority queue. The score is
  the number of indexed variants minus the number of indices the read skips inside its span,
  and then the minimum variant quality, capped at 1000. Reads are popped best first:
  - a read whose index span already reaches the cap somewhere is coverage-violating;
  - otherwise, a read that has a position not yet covered is accepted; its span is added to
    the coverage counters, and the reads still in the queue that share its new positions get
    rescored: their first component drops by the number of their variants outside the newly
    covered positions (see "## Findings");
  - any other read is dropped.
- **Components.** A fresh component finder merges the positions of each accepted read.
- **Bridging** (optional). Every read still undecided is popped once more:
  - a read that now violates the cap is no longer undecided;
  - a read whose positions all lie in one component stays undecided;
  - any other read joins two or more components, so it is selected, counted and merged.

When nothing is undecided, the selector returns three things:

- the selected reads;
- the component representative of each position, read from the last round's finder;
- the number of reads that had fewer than two variants.

Modules, one per part of the source:

| module | models |
|---|---|
| `Reads` | the read set and its sorted, distinct `get_positions` |
| `Indexing` | `_construct_indexes` |
| `Scoring` | `_compute_score_for_read` and `_update_score_for_reads` |
| `PriorityQueues` | the priority queue the selector uses |
| `Coverage` | `CovMonitor` |
| `Graph` | `ComponentFinder` |
| `Slice` | `__pq_construction_out_of_given_reads` and `slice_read_selection` |
| `Bridging` | the component merging and the bridging block of `readselection` |
| `Selection` | the round loop and the result of `readselection` |

The queue, the coverage monitor and the component finder are classes whose methods update their
fields in place. The loops of the source are methods with loop invariants. Each loop body that
classifies a popped read is its own method (`Slice.SlicePop`, `Bridging.BridgePop`), proved to
do exactly one step of a ghost function over the loop's state (`Slice.PopSlice`,
`Bridging.PopBridge`). The loops are proved to end exactly where the functions that repeat that
step end (`Slice.SliceRun`, `Bridging.BridgeRun`), and one round of `readselection` is proved to do
exactly what `Selection.RoundSpec` describes. A ghost `Selection.Run` records every round of the
loop: the undecided reads and counters before and after it, its trace and its finder's
components. `Selection.RoundsSoFar` says that each recorded round is a `RoundSpec` step from the
state the previous one left, starting from all candidates and zero counters. Lemmas then show
what those functions keep: the slice state `Slice.SliceInv`, the bridging state
`Bridging.BridgeInv` and the state between rounds `Selection.RoundInv`.

The score update follows the code. The comment at `whatshap/readselect.py:59-60` says that a
read's score decreases for each of its variants that is already covered. The code lowers the
first component by one for every variant of the read whose position is NOT among the positions
the accepted read just covered (`whatshap/readselect.py:50-53`, called at line 172).
`Scoring.UpdateScore` models the code as written, and `Selection.ReadSelection` uses it.
`Scoring.UpdateScoreCorrected` models the update as the comment describes it, and
`Selection.ReadSelectionCorrected` uses it (see "## Findings").

## Model

| member | source | states |
|---|---|---|
| `Reads.GetPositions` | whatshap/readselect.py:33 | the positions are strictly increasing (sorted, no duplicates) and are exactly the positions of all variants of all reads |
| `Reads.AllPositionsContains` | whatshap/readselect.py:33 | every position of every read is among the read set's positions |
| `Reads.AllPositionsWitness` | whatshap/readselect.py:33 | every position of the read set belongs to some read |
| `Indexing.IndexMap` | whatshap/readselect.py:34 | `vcf_indices` maps the k-th sorted position to k, maps nothing else, and inverts `positions` |
| `Indexing.IndexMonotone` | whatshap/readselect.py:34 | indices preserve the order of positions: a smaller position has a smaller index |
| `Indexing.ReadsAtMembers` | whatshap/readselect.py:35-39 | a read is in the reference adjacency list of a position exactly when it has a variant there |
| `Indexing.ConstructIndexes` | whatshap/readselect.py:30-40 | sorted positions of all reads; an index map that inverts them; and an adjacency map whose list at every index is exactly the reads with a variant there, in read order, so every read is listed under each of its variants |
| `Indexing.FillReadMap` | whatshap/readselect.py:36-39 | the outer loop leaves, under every index, the list of reads having a variant at that position, in read order, and no entry for other keys |
| `Indexing.AppendRead` | whatshap/readselect.py:37-39 | one read's inner loop appends that read, once, to the list of each of its variants and changes no other list |
| `Indexing.ReadMapComplete` | whatshap/readselect.py:36-39 | every (read, variant) pair is found in the adjacency map under the variant's index |
| `Scoring.CoveredIndices` | whatshap/readselect.py:68-75 | `covered_SNPS` is at most as long as the read; when all positions are indexed, it is the read's indices in read order |
| `Scoring.MinQuality` | whatshap/readselect.py:65-72 | the minimum quality is at most 1000, at most every variant's quality, and either 1000 or the quality of some variant |
| `Scoring.ComputeScore` | whatshap/readselect.py:57-83 | the first two score components are equal; the third is the minimum quality, capped at 1000 and attained by a variant unless it is 1000 |
| `Scoring.GapIsMissing` | whatshap/readselect.py:79-80 | `bad_score` is the number of indices inside the read's span that the read skips, so it is never negative |
| `Scoring.GapZeroIffContiguous` | whatshap/readselect.py:79-80 | `bad_score` is zero exactly when the read's indices are consecutive |
| `Scoring.ScoreOfIndexedRead` | whatshap/readselect.py:57-83 | for a read of the read set, the score is the number of variants minus the number of skipped indices; it is at most the number of variants, with equality exactly when the indices are consecutive |
| `Scoring.CountOutsideCard` | whatshap/readselect.py:50-53 | the decrement loop subtracts exactly the number of the read's distinct positions outside the given set |
| `Scoring.UpdateScore` | whatshap/readselect.py:43-54 | the second component and the quality are kept. The first never grows. For a read with increasing positions it falls by the number of its positions outside the given set |
| `Scoring.CountSplit` | whatshap/readselect.py:50-53 | every variant of the read is counted either inside or outside the given set |
| `Scoring.CountInsideCard` | whatshap/readselect.py:59-60 | for a read with increasing positions, counting its variants inside a set counts its distinct positions in that set |
| `Scoring.UpdateScoreCorrected` | whatshap/readselect.py:59-60 | the update as the comment describes it: second component and quality kept, and the first falls by the number of the read's positions that are now covered |
| `Scoring.UpdateDecrementsComplement` | whatshap/readselect.py:50-53 | the decrement as written and the decrement as intended add up to the read's number of variants: the code subtracts the complement of what the comment describes |
| `Scoring.UpdateScoreInverted` | whatshap/readselect.py:50-53 | a read at positions 1, 2, 3 with only position 1 just covered loses two under the code and one under the corrected update |
| `Scoring.UpdateScoreIgnoresCovered` | whatshap/readselect.py:50-53 | a read all of whose positions were just covered keeps its score under the code and loses all of it under the corrected update |
| `PriorityQueues.PriorityQueue.constructor` | whatshap/readselect.py:92 | a new queue holds no entries |
| `PriorityQueues.PriorityQueue.Push` | whatshap/readselect.py:97 | pushing adds the item with its score and changes no other entry |
| `PriorityQueues.PriorityQueue.IsEmpty` | whatshap/readselect.py:112 | empty exactly when no entry is left |
| `PriorityQueues.PriorityQueue.Pop` | whatshap/readselect.py:119 | the popped pair was in the queue and is greatest in score order (ties to the larger item); the queue loses that entry and nothing else |
| `PriorityQueues.PriorityQueue.GetScoreByItem` | whatshap/readselect.py:170-171 | returns the item's current score exactly when the item is still queued, and None otherwise |
| `PriorityQueues.PriorityQueue.ChangeScore` | whatshap/readselect.py:173 | replaces one item's score in place and keeps every other entry |
| `Coverage.RangeMax` | whatshap/readselect.py:139 | the range maximum bounds every counter in [begin, end) and is attained by one of them |
| `Coverage.AddSpanKeepsCap` | whatshap/readselect.py:139-142 | adding a read whose span is below the cap everywhere keeps every counter within the cap |
| `Coverage.RangeMaxMonotone` | whatshap/readselect.py:139 | when counters only grow, a range maximum that reached the cap still reaches it |
| `Coverage.CovMonitor.constructor` | whatshap/readselect.py:200 | one zero counter per indexed position |
| `Coverage.CovMonitor.MaxCoverageInRange` | whatshap/readselect.py:139 | returns the maximum counter in [begin, end) |
| `Coverage.CovMonitor.AddRead` | whatshap/readselect.py:142 | adds one to exactly the counters in [begin, end) |
| `Graph.JoinValid` | whatshap/readselect.py:226 | a merge keeps every representative the smallest member and a root of its component |
| `Graph.JoinComponents` | whatshap/readselect.py:226 | after `merge(a, b)` two positions share a component exactly when they did before, or each was with `a` or `b` |
| `Graph.AbsorbComponents` | whatshap/readselect.py:225-226 | after a read's positions are merged, all of them are in one component, and no two positions that were together are split |
| `Graph.JoinAbsorb` | whatshap/readselect.py:225-226 | each further merge of the first position with the next one extends the read's absorbed blocks by that position's block, under the smallest root |
| `Graph.CoarserTrans` | whatshap/readselect.py:221-257 | merging components step by step only ever merges: the relation "only merged" composes |
| `Graph.CoarserKeepsTogether` | whatshap/readselect.py:221-257 | positions in one component stay in one component under further merges |
| `Graph.AbsorbCoarser` | whatshap/readselect.py:225-226 | absorbing a read's blocks merges components and splits none |
| `Graph.ComponentFinder.constructor` | whatshap/readselect.py:221 | every indexed position starts as its own component |
| `Graph.ComponentFinder.Find` | whatshap/readselect.py:234 | returns the representative of the position's component, which is a root no larger than the position |
| `Graph.ComponentFinder.Merge` | whatshap/readselect.py:226 | unites exactly the two components, under the smaller representative |
| `Slice.ReadsArePlaced` | whatshap/readselect.py:137-138 | for every read with variants, `begin` and `end` are defined, with begin < end <= the number of positions |
| `Slice.PqConstruction` | whatshap/readselect.py:86-99 | the new queue holds exactly the given reads, each with its computed score |
| `Slice.NewPositions` | whatshap/readselect.py:125-132 | the read's not-yet-covered positions are collected, and the flag is set exactly when there is one |
| `Slice.CoverPositions` | whatshap/readselect.py:155-158 | the covered set grows by exactly the new positions, and the collected reads are those listed under them in the adjacency map |
| `Slice.AffectedShareNewPosition` | whatshap/readselect.py:155-158 | with the adjacency map of `_construct_indexes`, the collected reads are exactly the reads that have one of the newly covered positions |
| `Slice.RescoreReads` | whatshap/readselect.py:161-173 | every read of the update set that is still queued gets the updated score. No other entry changes, and no read is added or removed |
| `Slice.PopSlice` | whatshap/readselect.py:118-173 | one pop removes exactly the popped read from the queue and keeps the counters' length and every queued read placeable |
| `Slice.SliceRun` | whatshap/readselect.py:112-174 | the loop, run from any state, ends with an empty queue |
| `Slice.SliceRunStep` | whatshap/readselect.py:112-119 | popping the top entry and classifying its read is the first step of the loop |
| `Slice.SliceStart` | whatshap/readselect.py:105-110 | the slice state holds before the first pop: nothing covered, accepted or violating |
| `Slice.SliceViolate` | whatshap/readselect.py:139-140 | a read whose span reaches the cap becomes violating, and the slice state is kept |
| `Slice.SliceDrop` | whatshap/readselect.py:139-141 | a read under the cap with no new position is dropped, and all its positions are covered |
| `Slice.SliceAccept` | whatshap/readselect.py:141-158 | an accepted read adds its span to the counters, keeps them within the cap, keeps the violating reads violating, and covers its new positions |
| `Slice.SliceAcceptSets` | whatshap/readselect.py:141-143 | accepting a read moves it from the queued reads to the accepted ones, in acceptance order |
| `Slice.SliceAcceptCounts` | whatshap/readselect.py:139-142 | accepting a read under the cap gives the counters of all accepted reads, within the cap |
| `Slice.SliceAcceptCovering` | whatshap/readselect.py:155-156 | the covered positions stay exactly those of the accepted reads |
| `Slice.PopSliceKeeps` | whatshap/readselect.py:118-173 | every pop, in each of its three branches, keeps the slice state |
| `Slice.SliceRunKeeps` | whatshap/readselect.py:112-174 | the whole loop keeps the slice state |
| `Slice.SlicePop` | whatshap/readselect.py:118-173 | one iteration pops the top entry, and the new queue, counters, covered positions, accepted and violating reads are exactly those of `PopSlice` |
| `Slice.SliceReadSelection` | whatshap/readselect.py:104-174 | the queue is emptied. The result is exactly `SliceRun` from the given queue and counters with nothing covered. Accepted and violating reads are disjoint. The counters are the start counters plus the accepted spans and stay within the cap. Every violating read's span reached the cap. Every accepted read added a new position. Every other popped read was already covered |
| `Slice.SliceAcceptCoverage` | whatshap/readselect.py:139-142 | accepting a read under the cap yields the counters of all accepted reads, within the cap |
| `Slice.OrderSnoc` | whatshap/readselect.py:143 | recording a newly accepted read keeps the acceptance order free of repeats |
| `Slice.SliceAcceptOrder` | whatshap/readselect.py:143-156 | every accepted read adds a position that the reads accepted before it did not cover |
| `Bridging.FewBlocksIffOneComponent` | whatshap/readselect.py:234-247 | a read covers fewer than two blocks exactly when all its positions are in one component |
| `Bridging.CoarserKeepsOneComponent` | whatshap/readselect.py:228-257 | a read that lies in one component still does after further merges |
| `Bridging.CoveredBlocks` | whatshap/readselect.py:234 | the blocks are the representatives of the read's positions |
| `Bridging.MergeRead` | whatshap/readselect.py:224-226 | the merge loop of one read puts all blocks it touches under their smallest representative and leaves other components unchanged |
| `Bridging.MergeReadStart` | whatshap/readselect.py:225 | before the first merge the read's first block is absorbed under its own representative |
| `Bridging.MergeReadStep` | whatshap/readselect.py:225-226 | each `merge(first, next)` extends the absorbed blocks by the next position's block, under the smallest root |
| `Bridging.MergedReadOneComponent` | whatshap/readselect.py:224-226 | after its merge loop a read lies in one component, and no component was split |
| `Bridging.MergedOneComponent` | whatshap/readselect.py:224-226 | merging a read's positions keeps the components valid, splits none, and puts the read in one component |
| `Bridging.MergeFold` | whatshap/readselect.py:222-226 | merging reads one after the other keeps the set of positions |
| `Bridging.MergeFoldSnoc` | whatshap/readselect.py:222-226 | merging one more read is one more merge loop on the components so far |
| `Bridging.MergeFoldAppend` | whatshap/readselect.py:222-257 | the merges of the slice followed by those of the bridging pass are the merges of both orders concatenated |
| `Bridging.MergeFoldUntouched` | whatshap/readselect.py:221-226 | a position that is its own component and lies on none of the merged reads stays its own component, and nothing joins it |
| `Bridging.MergeReadsStep` | whatshap/readselect.py:222-226 | merging one more read of the slice keeps the merge-loop invariant: the merged reads in order, each in one component |
| `Bridging.MergeReads` | whatshap/readselect.py:221-226 | the merge loop over the accepted reads, in some order of them without repeats, gives exactly the components of merging them one after the other; each accepted read lies in one component |
| `Bridging.SplitSnoc` | whatshap/readselect.py:246-248 | recording a read that touched two blocks when it was popped keeps the record that every bridging read did |
| `Bridging.BridgeStart` | whatshap/readselect.py:228-230 | the bridging state holds before the first pop |
| `Bridging.BridgeViolate` | whatshap/readselect.py:241-243 | a popped read whose span reaches the cap is removed from the undecided reads and not selected |
| `Bridging.BridgeSkip` | whatshap/readselect.py:246-247 | a popped read within one component stays undecided |
| `Bridging.BridgeAccept` | whatshap/readselect.py:248-257 | a read under the cap touching two components is selected and counted. It did not lie in one component of the starting finder, and does afterwards. It touched two blocks of the components at its pop |
| `Bridging.BridgeAcceptComponents` | whatshap/readselect.py:248-257 | merging a bridging read keeps every earlier read in one component and puts the new one in one component |
| `Bridging.PopBridge` | whatshap/readselect.py:232-257 | one pop removes exactly the popped read from the queue and keeps the positions, the counters' length and every queued read placeable and known |
| `Bridging.BridgeRun` | whatshap/readselect.py:231-257 | the bridging loop, run from any state, ends with an empty queue |
| `Bridging.BridgeRunStep` | whatshap/readselect.py:231-232 | popping the top entry and classifying its read is the first step of the loop |
| `Bridging.PopBridgeViolated` | whatshap/readselect.py:241-243 | a read whose span reaches the cap leaves the queue and the undecided reads, and nothing else changes |
| `Bridging.PopBridgeSkipped` | whatshap/readselect.py:246-247 | a read under the cap touching fewer than two blocks leaves the queue only |
| `Bridging.PopBridgeSelected` | whatshap/readselect.py:248-257 | a read under the cap touching two or more blocks is counted, merged, removed from the undecided reads and recorded as bridging |
| `Bridging.PopBridgeKeeps` | whatshap/readselect.py:232-257 | every pop keeps the bridging state |
| `Bridging.PopBridgeSelectedKeeps` | whatshap/readselect.py:248-257 | the selecting branch keeps the bridging state |
| `Bridging.BridgeRunKeeps` | whatshap/readselect.py:231-257 | the whole bridging loop keeps the bridging state |
| `Bridging.SelectRead` | whatshap/readselect.py:251-257 | the read's span is counted and its blocks are merged under their smallest representative |
| `Bridging.BridgeSelect` | whatshap/readselect.py:248-257 | the selecting branch counts the span, merges the read, removes it from the undecided reads and records it as bridging and selected |
| `Bridging.BridgePop` | whatshap/readselect.py:232-257 | one iteration pops the top entry, and the new queue, counters, components, undecided and bridging reads are exactly those of `PopBridge` |
| `Bridging.BridgeLoop` | whatshap/readselect.py:231-257 | the loop empties the queue and ends exactly in the state `BridgeRun` gives from the start |
| `Bridging.BridgingPass` | whatshap/readselect.py:228-257 | the result is exactly `BridgeRun` from the queue, counters and components at the start. Each undecided read is kept undecided, removed as violating, or selected for bridging. The counters add the bridging spans within the cap. Violating reads reached the cap. Kept reads lie in one component. Each bridging read touched two or more blocks of the components at its pop, and lies in one component after the pass |
| `Selection.RoundStart` | whatshap/readselect.py:200-209 | the round state holds before the first round: zero counters, nothing selected, every candidate undecided |
| `Selection.AddSpansAtMost` | whatshap/readselect.py:142 | counting more spans only raises counters |
| `Selection.StillBlocked` | whatshap/readselect.py:139-140 | a read whose span reached the cap still does once more spans are counted |
| `Selection.BlockedAfter` | whatshap/readselect.py:217-218 | a candidate that leaves the undecided reads without being selected has a span that reaches the cap, before and after further counting |
| `Selection.RoundAfterSlice` | whatshap/readselect.py:213-218 | after a slice, the accepted reads are selected and no longer undecided, violating reads are no longer undecided, and a non-empty undecided set strictly shrinks |
| `Selection.RoundAfterBridging` | whatshap/readselect.py:228-257 | after bridging, the bridging reads are selected and no longer undecided, violating ones are blocked, and undecided and selected reads stay disjoint |
| `Selection.CandidatesPlaced` | whatshap/readselect.py:137-138 | every candidate read has an index span within the positions |
| `Selection.NoPositionsNoCandidates` | whatshap/readselect.py:206 | without any variant position there is no read with two variants |
| `Selection.RoundComponents` | whatshap/readselect.py:221-257 | every read selected in a round, by the slice or by bridging, lies in one component of that round's finder |
| `Selection.SliceAndMerge` | whatshap/readselect.py:213-226 | the slice runs exactly as `SliceRun` from the queue of every undecided read, and the fresh finder's components are exactly those of merging the accepted reads in some order |
| `Selection.RoundBridging` | whatshap/readselect.py:228-257 | the bridging pass runs exactly as `BridgeRun` from the queue of the reads the slice left undecided, and its merges continue the slice's |
| `Selection.MaybeBridge` | whatshap/readselect.py:228-257 | with bridging on, the pass runs exactly as `BridgeRun`; with it off nothing changes |
| `Selection.SelectionRound` | whatshap/readselect.py:212-257 | one round does exactly what `RoundSpec` describes: the slice run, a fresh finder merging the accepted reads, then (with bridging on) the bridging run from those components. The selected reads grow by the accepted and bridging reads, the round is appended to the recorded run, and the finder's components are those of merging the round's reads in order |
| `Selection.RoundMerges` | whatshap/readselect.py:221-257 | the slice's merges followed by the bridging merges give the round's components from fresh ones |
| `Selection.RoundSpecHolds` | whatshap/readselect.py:212-257 | the facts the parts of a round establish add up to `RoundSpec` |
| `Selection.SliceStageKeeps` | whatshap/readselect.py:213-218 | a slice run from its start keeps the state between rounds and decides some read when any is undecided |
| `Selection.BridgeStageKeeps` | whatshap/readselect.py:228-257 | a bridging run from its start keeps the state between rounds and never grows the undecided set |
| `Selection.NoBridgeStage` | whatshap/readselect.py:228-229 | with bridging off the state after the slice is the state after the round |
| `Selection.RoundSpecKeeps` | whatshap/readselect.py:212-257 | any round as specified keeps the state between rounds (selected reads in order, counters within the cap, unselected decided candidates blocked) and strictly shrinks a non-empty undecided set |
| `Selection.ChosenSnoc` | whatshap/readselect.py:213-257 | the reads chosen by the rounds so far plus one more round are those chosen before plus that round's accepted and bridging reads |
| `Selection.RoundsSnoc` | whatshap/readselect.py:212-257 | a run of rounds, each a `RoundSpec` step from the previous one's state, stays such a run when one more `RoundSpec` step is appended from its last state |
| `Selection.RoundStep` | whatshap/readselect.py:212-257 | after one more round as specified, the state between rounds still holds, a non-empty undecided set has shrunk, the recorded run ends in the new undecided reads and counters, the selected reads are all reads chosen by the run, and the new finder's components are those of merging the last round's reads in order |
| `Selection.Rounds` | whatshap/readselect.py:200-263 | the loop ends with nothing undecided, after a run of rounds each of which is a `RoundSpec` step from the state the previous one left, starting from all candidates and zero counters. The selected reads are exactly those chosen by these rounds; their counters stay within the cap, and every decided but unselected candidate is blocked. A finder is bound exactly when some read has at least two variants, which is exactly when some round ran; its components are the last round's, those of merging the last round's reads in order |
| `Selection.AddSpansCount` | whatshap/readselect.py:142 | each coverage counter equals its start value plus the number of counted reads whose span contains that index |
| `Selection.SpanningAdd` | whatshap/readselect.py:142 | counting one more read adds one spanning read at an index exactly when its span contains the index |
| `Selection.SpanningAtPosition` | whatshap/readselect.py:137-138 | a read spans an index exactly when it spans that index's position |
| `Selection.SelectedPlaced` | whatshap/readselect.py:137-138 | every selected read has an index span within the positions |
| `Selection.CoverageWithinCap` | whatshap/readselect.py:139-142 | at every variant position, at most `max_cov` selected reads span it |
| `Selection.WithinSpan` | whatshap/readselect.py:137-140 | a coverage index between a read's begin and end is a variant position between its first and last variant |
| `Selection.BlockedWitness` | whatshap/readselect.py:139-142 | a read whose index span reached the cap has a variant position in its span covered by at least `max_cov` counted reads |
| `Selection.UnselectedBlocked` | whatshap/readselect.py:139-140 | every candidate that is not selected has a position within its span covered by at least `max_cov` selected reads |
| `Selection.FinalCoverage` | whatshap/readselect.py:139-142 | once nothing is undecided, no position is spanned by more than a non-negative `max_cov` selected reads, and every unselected candidate has a position in its span covered by `max_cov` selected reads |
| `Selection.OutcomeOfRounds` | whatshap/readselect.py:264-276 | the state the loop ends in, with the last round's components read out, gives the promised result, tied to the recorded run of rounds |
| `Selection.Finish` | whatshap/readselect.py:266-276 | the result holds the selected reads, the finder's component of every position, and the number of reads with fewer than two variants |
| `Selection.ReadSelection` | whatshap/readselect.py:190-276 | fails exactly when some variant exists but no read has two variants. Otherwise: `stats` counts the reads with fewer than two variants; the selected reads are candidates; `components` covers every position with valid representatives; for `max_cov >= 0`, no position is spanned by more than `max_cov` selected reads; every unselected candidate has a position in its span covered by `max_cov` selected reads. All of this is about one recorded run of rounds that starts from all candidates and zero counters, in which each round is a `RoundSpec` step from the state the previous one left and the last leaves nothing undecided: the selected reads are exactly those its rounds chose, and `components` are the last round's finder's, those of merging the last round's reads in order |
| `Selection.ReadSelectionCorrected` | whatshap/readselect.py:190-276 | the same facts, about a recorded run of rounds under the corrected score update, without a failure. When no read has two variants, no round runs, nothing is selected and every position is its own component |
| `Selection.EmptyOutcome` | whatshap/readselect.py:264-276 | without any variant the only possible result selects nothing and has no components |
| `Selection.NoVariants` | whatshap/readselect.py:206-276 | on two reads without variants, both versions return nothing selected, no components and two skipped reads |
| `Selection.TwoSingleVariantReads` | whatshap/readselect.py:206-212 | two reads of one variant each are well formed and leave no candidate |
| `Selection.SingleVariantReads` | whatshap/readselect.py:212-266 | on those reads the as-written selection fails with an unbound component finder |
| `Selection.SingleVariantReadsCorrected` | whatshap/readselect.py:212-266 | on those reads the corrected selection selects nothing, skips both reads and maps each position to itself |
| `Selection.OwnComponents` | whatshap/readselect.py:221 | components in which every position represents itself are those of a fresh finder |

## Left out

- Logging, the debugging `print` calls and `format_read_source_stats`: the log lines and source-id summaries affect no result.
- Alleles, mapping qualities and read names: the selection never reads them. A variant keeps its position and its quality, the third field that `_compute_score_for_read` reads.
- `PriorityQueues.PriorityQueue.Pop`: the heap and its tie order are not part of this model. The queue is a map from item to score, and pop scans for the maximum. Among equal scores it takes the larger item; the real heap may order ties differently, and so may select different reads.
- `Graph.ComponentFinder`: union-find with path compression is modelled by a representative map in which each component's representative is its smallest position. Other implementations could name components differently, so `components` is stated up to that choice.
- `Bridging.MergeReads`: the merge loop runs over a Python set, whose iteration order is not modelled. The method returns the order it used, and the components are stated for that order.
- Iteration over the other Python sets (the rescoring loop, the new positions): each picks an arbitrary element, and the proofs hold for every order.
- `Reads.GetPositions`: the read set's own routine is not part of this model. It is modelled as returning all positions, sorted and without duplicates.
- `Scoring.ComputeScore` requires at least one indexed position: the source raises an IndexError at line 79 on an empty `covered_SNPS`, and this precondition stands in for that exception.
- `Indexing.ConstructIndexes`, `Selection.ReadSelection` and `Selection.ReadSelectionCorrected` require strictly increasing positions within each read (`Reads.WellFormed`). This precondition is an assumption about whatshap's reads, which are sorted with one variant per position. It does not stand in for an exception: the source raises nothing on a repeated position. It processes such a read without complaint and gives it an inflated score. For a read `[(p, q), (p, q)]`, lines 37-39 append the read twice to the adjacency list of p's index. Lines 68-83 collect `covered_SNPS == [i, i]`, which gives `bad_score == -1` and the score `(3, 3, q)` instead of `(1, 1, q)`. The slice then treats the read like any other. Reads with repeated positions are therefore outside what this model states.
- Integers are unbounded, as in Python.
- The finders of earlier rounds are discarded by the source. The recorded run keeps their components as ghost state, and the result states only the last round's.

## Findings

| source | as written | input that shows it | evidently intended | confidence | as-written member | corrected member |
|---|---|---|---|---|---|---|
| whatshap/readselect.py:266 | `component_finder` is bound only inside the round loop (line 221). When some variant exists but no read has two or more variants, the loop at line 212 never runs, and the read-out at line 266 uses an unbound name. With no variant at all the read-out loop is empty and the call returns normally | two reads with one variant each, at positions 100 and 250 (any read set with a variant but no two-variant read) | no read selected, and every position its own component | not executed | `Selection.ReadSelection`, `Selection.SingleVariantReads` | `Selection.ReadSelectionCorrected`, `Selection.SingleVariantReadsCorrected` |
| whatshap/readselect.py:50-53 | the score of a queued read drops by one for every variant whose position is NOT among the positions just covered, although the comment at lines 59-60 says the score decreases for variants that are already covered | a read at positions 1, 2 and 3 when only position 1 was just covered: its score drops by two instead of one; a read whose positions were all just covered keeps its score | the score drops by one for every variant of the read that is now covered | not executed | `Scoring.UpdateScore`, `Scoring.UpdateScoreInverted` | `Scoring.UpdateScoreCorrected`, `Scoring.UpdateDecrementsComplement` |
