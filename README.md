# TreeSAPP reference-package core and the RAxML parsimony starting tree, in Dafny

This project models two parts of TreeSAPP (Tree-based Sensitive and
Accurate Phylogenetic Profiler) and proves properties of them.

The first part is the maximum-parsimony engine of RAxML 7.1.0, which
TreeSAPP ships to build starting trees (`raxmlParsimony.c`). It is modelled
imperatively, in the form the C code takes:

- `ParsimonyTree.Tree` is a class whose fields mirror RAxML's `tree` record.
  - The node pool is an arena of record indices. `back` is an `array<int>`
    of links, where `NULL` is `-1`.
  - `next` and `number` are fixed tables. They describe one record per tip
    and a 3-cycle of records per inner vertex.
  - `xrec` says which record of each cycle holds the cached vector (the `x`
    flag).
  - `pVec` is a two-dimensional array of per-site parsimony vectors: one
    row per partition and inner vertex.
  - The search state lives in mutable fields: `bestParsimony`,
    `insertNode`, `removeNode`, `ntips`, `nextnode` and `start`.
- The Fitch kernels, the traversal descriptor, the edge scores, the
  topology edits, stepwise addition, SPR rearrangement, the local-search
  loop, `makePermutation`, `nodeRectifier` and the informative-site filter
  are methods over that state. Most are proved against a specification
  function: `FitchRow`, `EdgeCost`/`EdgeScore`, `InsertLinks`/`RemoveLinks`,
  `Preorder`, `Compacted` and others. Stepwise and random addition are
  stated by their counters and trial logs, and one added taxon by its final
  insertion; "## Left out" says what that leaves unproved.

The second part is TreeSAPP's Python code for building and updating
reference packages:

- the taxonomic hierarchy (`Taxon`, `TaxonomicHierarchy`), with lineages,
  lowest common ancestors, coverage-counted removal, digestion of new
  lineages, alias keys and rank trimming;
- the record filters and renumbering of `create_refpkg.py`;
- the string and clade helpers of `utilities.py`;
- the suffix stripping and sequence-to-lineage mapping of
  `update_refpkg.py`;
- `reverse_complement`, header reformatting, `.uc` parsing and FASTA
  assembly from `create_treesapp_ref_data.py`;
- rarefaction and the early-exit guards of `placement_trainer.py`.

The Python code is modelled on values. Python dicts become association
lists (`seq<(K, V)>`) wherever the algorithm depends on insertion order,
and `map`s elsewhere. Functions that both return a value and mutate an
argument return both.

## Model

| member | source | states |
|---|---|---|
| ParsimonyTree.CycleFacts | sub_binaries/RAxML-7.1.0/raxmlParsimony.c:76-77 | the three records of an inner vertex's `next` cycle are distinct inner records with the same node number, and three `next` steps lead back to the start |
| ParsimonyTree.TipIffTipNumber | sub_binaries/RAxML-7.1.0/raxmlParsimony.c:71 | `isTip(p->number)` holds exactly for tip records; every node number lies between 1 and 2·mxtips−1 |
| ParsimonyTree.OtherVertex | sub_binaries/RAxML-7.1.0/raxmlParsimony.c:76-77 | a record with a different node number is not in p's cycle |
| ParsimonyTree.SameVertex | sub_binaries/RAxML-7.1.0/raxmlParsimony.c:76-77 | a record with the same node number as an inner record is in its cycle |
| ParsimonyTree.InsertRemoveRoundTrip | sub_binaries/RAxML-7.1.0/raxmlParsimony.c:606-616 | with p's arms detached, inserting p into edge q–r and then removing it gives back the original links, and `p->next->back == q` in between (the removal returns q) |
| ParsimonyTree.InsertLinksShape | sub_binaries/RAxML-7.1.0/raxmlParsimony.c:606-616 | inserting p into edge q–r links p->next with q and p->next->next with r and changes no other link |
| ParsimonyTree.InsertLinks | sub_binaries/RAxML-7.1.0/raxmlParsimony.c:606-616 | the four `back` writes of inserting p into q–r, keeping the table's length; `InsertLinksShape` and `InsertRemoveRoundTrip` prove what they link |
| ParsimonyTree.RemoveLinks | sub_binaries/RAxML-7.1.0/raxmlParsimony.c:884-896 | the four `back` writes of removing p, keeping the table's length; `InsertRemoveRoundTrip` proves it undoes an insertion |
| ParsimonyTree.Tree.constructor | sub_binaries/RAxML-7.1.0/raxmlParsimony.c:1509-1511 | a fresh tree has no placed tips, `nextnode == mxtips + 1`, the first tip as start, best score 0 and no recorded move |
| ParsimonyTree.Tree.InnerIndex | sub_binaries/RAxML-7.1.0/raxmlParsimony.c:80-84 | every inner record maps to a slot of the `x`-flag table |
| ParsimonyTree.Tree.HookupDefault | sub_binaries/RAxML-7.1.0/raxmlParsimony.c:966-967 | `hookupDefault(x, y)` makes x and y each other's `back` and changes no other link |
| ParsimonyTree.Tree.GetXNode | sub_binaries/RAxML-7.1.0/raxmlParsimony.c:80-84 | `getxnode(p)` moves the cycle's single `x` flag onto p and leaves the other cycles alone |
| ParsimonyKernels.JoinNonEmpty | sub_binaries/RAxML-7.1.0/raxmlParsimony.c:160-166 | the union with a non-empty state set is non-empty |
| ParsimonyKernels.MeetWithinJoin | sub_binaries/RAxML-7.1.0/raxmlParsimony.c:160-166 | the intersection is a subset of the union |
| ParsimonyKernels.JoinKeepsMeet | sub_binaries/RAxML-7.1.0/raxmlParsimony.c:160-166 | the union contains the intersection |
| ParsimonyKernels.FitchScore | sub_binaries/RAxML-7.1.0/raxmlParsimony.c:145-218 | one Fitch step scores the sum of the children's scores, plus 1 exactly when their state sets are disjoint |
| ParsimonyKernels.FitchStateBounds | sub_binaries/RAxML-7.1.0/raxmlParsimony.c:145-218 | the new state set is non-empty whenever the left one is, contains the children's intersection and lies within their union |
| ParsimonyKernels.FitchCommutes | sub_binaries/RAxML-7.1.0/raxmlParsimony.c:145-218 | a Fitch step gives the same state and score with the children swapped |
| ParsimonyKernels.Fitch | sub_binaries/RAxML-7.1.0/raxmlParsimony.c:154-213 | one site of the Fitch step: the intersection of the children's state sets when it is non-empty, else their union with one more change; `FitchScore`, `FitchStateBounds` and `FitchCommutes` prove its score, bounds and symmetry |
| ParsimonyKernels.ThreonineOverlapsAlanineAsWritten | sub_binaries/RAxML-7.1.0/raxmlParsimony.c:64-67 | with the table as written, the code for T (65535) shares a state with A, so a site with tips A and T costs 0 |
| ParsimonyKernels.AlanineInThreonineAsWritten | sub_binaries/RAxML-7.1.0/raxmlParsimony.c:64-67 | with the table as written, A's bit lies inside T's code |
| ParsimonyKernels.ProtTipTableDistinct | sub_binaries/RAxML-7.1.0/raxmlParsimony.c:64-67 | the corrected 23-entry table gives the 20 amino acids pairwise disjoint single bits, codes 20 and 21 the unions N∪D and Q∪E, and code 22 every amino acid |
| ParsimonyKernels.AmbiguityCodes | sub_binaries/RAxML-7.1.0/raxmlParsimony.c:64-67 | codes 20 and 21 are the unions N∪D and Q∪E |
| ParsimonyKernels.ResidueIsBit | sub_binaries/RAxML-7.1.0/raxmlParsimony.c:64-67 | amino acid i has the single bit i |
| ParsimonyKernels.ResidueInX | sub_binaries/RAxML-7.1.0/raxmlParsimony.c:64-67 | the unknown-residue code contains every amino acid |
| ParsimonyKernels.BitsDisjoint | sub_binaries/RAxML-7.1.0/raxmlParsimony.c:64-67 | distinct single bits share no state |
| ParsimonyKernels.EdgeCostPrefix | sub_binaries/RAxML-7.1.0/raxmlParsimony.c:299-340 | the edge cost over sites 0..i is the cost over sites 0..i−1 plus `wgt[i]` times site i's Fitch score |
| ParsimonyKernels.EdgeCostSymmetric | sub_binaries/RAxML-7.1.0/raxmlParsimony.c:299-340 | the edge cost does not depend on which endpoint is called left |
| ParsimonyKernels.EdgeCostMonotone | sub_binaries/RAxML-7.1.0/raxmlParsimony.c:299-340 | raising site weights never lowers the edge cost |
| ParsimonyKernels.EdgeCostAtLeastChildren | sub_binaries/RAxML-7.1.0/raxmlParsimony.c:299-340 | with unit weights, the edge cost is at least the cost with a tip endpoint (score 0) in place of the right row |
| ParsimonyKernels.NewviewParsimonyDNA | sub_binaries/RAxML-7.1.0/raxmlParsimony.c:145-218 | the parent's parsimony vector becomes the site-by-site Fitch step of the two children's old vectors, with tips read raw as state sets of score 0; no other vector changes |
| ParsimonyKernels.NewviewParsimonyPROT | sub_binaries/RAxML-7.1.0/raxmlParsimony.c:220-294 | as for DNA, with each tip code first mapped through `protTipParsimonyValue` or `bitVectorSecondary` |
| ParsimonyKernels.SiteStep | sub_binaries/RAxML-7.1.0/raxmlParsimony.c:154-213 | the per-site body computes the Fitch step: the intersection when it is non-empty, else the union with one more step |
| ParsimonyKernels.EvalDNA | sub_binaries/RAxML-7.1.0/raxmlParsimony.c:299-340 | the returned sum is Σ wgt[i]·(scoreL + scoreR + [stateL ∩ stateR = ∅]), where a tip end supplies its raw code with score 0 |
| ParsimonyKernels.EvalPROT | sub_binaries/RAxML-7.1.0/raxmlParsimony.c:342-386 | as for DNA, with the tip code mapped through the bit-value table |
| ParsimonyTraversal.WrittenGrow | sub_binaries/RAxML-7.1.0/raxmlParsimony.c:69-141 | the vertices written by an extended descriptor are the old ones followed by those of the appended entries |
| ParsimonyTraversal.ComputeTraversalInfoParsimony | sub_binaries/RAxML-7.1.0/raxmlParsimony.c:69-141 | the descriptor is only appended to, with well-formed entries; a tip appends nothing and moves no flag; for an inner p the last entry is p's own and p holds the `x` flag; when the links behind p form a tree, the call succeeds and the new entries are in post-order (no entry writes a vertex that an earlier new entry wrote or read, so a stale child comes before its parent) and name only vertices of that subtree |
| ParsimonyTraversal.ComputeInner | sub_binaries/RAxML-7.1.0/raxmlParsimony.c:73-139 | for an inner p, the last appended entry is p's and p holds the flag; every flag moved belongs to a vertex written into the descriptor; on a tree behind p the call succeeds and the new entries are a post-order run over p's subtree |
| ParsimonyTraversal.Orient | sub_binaries/RAxML-7.1.0/raxmlParsimony.c:78-138 | p, q and r end up holding their flags; when the subtrees behind q and r are disjoint trees that do not hold p, the call succeeds and the new entries are a post-order run over their vertices, ready for p's entry |
| ParsimonyTraversal.Classify | sub_binaries/RAxML-7.1.0/raxmlParsimony.c:76-104 | the case is TIP_TIP exactly when both children are tips; q and r are swapped only in the TIP_INNER case, so that q is the tip |
| ParsimonyTraversal.OrientSelf | sub_binaries/RAxML-7.1.0/raxmlParsimony.c:80-84 | p takes the `x` flag and no other vertex's flag moves |
| ParsimonyTraversal.Emit | sub_binaries/RAxML-7.1.0/raxmlParsimony.c:86-90 | exactly one entry (tipCase, p, q, r) is appended; after a post-order run over the subtrees behind q and r it extends the run to p's whole subtree |
| ParsimonyTraversal.OrientLoop | sub_binaries/RAxML-7.1.0/raxmlParsimony.c:106-131 | the bounded `while (!p->x)` loop: a child without its flag is traversed first and all three records end up holding their flags; on two disjoint subtrees without p it succeeds and its entries are a post-order run over them |
| ParsimonyTraversal.OrientPass | sub_binaries/RAxML-7.1.0/raxmlParsimony.c:123-131 | one pass of the loop body keeps the descriptor well formed and records every moved flag; on two disjoint subtrees without p it leaves p, q and r flagged after a post-order run over them |
| ParsimonyTraversal.Descend | sub_binaries/RAxML-7.1.0/raxmlParsimony.c:123-131 | a child that holds its flag is skipped; a stale one is traversed and then holds its flag; on a tree behind the child the new entries are a post-order run within its subtree, and every flag moved belongs to that subtree |
| ParsimonyTraversal.JoinRuns | sub_binaries/RAxML-7.1.0/raxmlParsimony.c:123-131 | two post-order runs over disjoint vertex sets, one after the other, form one post-order run over their union |
| ParsimonyTraversal.EmitRun | sub_binaries/RAxML-7.1.0/raxmlParsimony.c:86-90 | a post-order run followed by an entry that writes a new vertex from two vertices of the run is still a post-order run |
| ParsimonyTraversal.CloseRun | sub_binaries/RAxML-7.1.0/raxmlParsimony.c:86-90 | p's entry after a post-order run over the subtrees behind q and r is a post-order run over p's subtree |
| ParsimonyTraversal.NodesSplit | sub_binaries/RAxML-7.1.0/raxmlParsimony.c:76-77 | the subtree behind an inner record p is p's vertex plus the subtrees behind its two neighbours, which are disjoint and do not hold p |
| ParsimonyTraversal.WrittenWithin | sub_binaries/RAxML-7.1.0/raxmlParsimony.c:69-141 | a run whose entries name only vertices of S writes only vertices of S |
| ParsimonyTraversal.KeepsOriented | sub_binaries/RAxML-7.1.0/raxmlParsimony.c:106-131 | traversing one subtree does not take the flag from a neighbour whose subtree is disjoint from it |
| ParsimonyTraversal.OtherSlot | sub_binaries/RAxML-7.1.0/raxmlParsimony.c:80-84 | orienting p does not take the flag from a neighbour whose subtree does not hold p |
| ParsimonyEval.TipRowsFromSites | sub_binaries/RAxML-7.1.0/raxmlParsimony.c:410-426 | every tip row of every partition lies inside `y0` and has a code the partition's table can map |
| ParsimonyEval.NewviewPartition | sub_binaries/RAxML-7.1.0/raxmlParsimony.c:410-447 | in one partition, the entry's parent vector becomes FitchRow of the children's old rows; no other vector changes |
| ParsimonyEval.NewviewStep | sub_binaries/RAxML-7.1.0/raxmlParsimony.c:395-449 | in every partition, the parent's row becomes FitchRow of the children's old rows; every other vertex's row is unchanged |
| ParsimonyEval.NewviewParsimonyIterative | sub_binaries/RAxML-7.1.0/raxmlParsimony.c:390-450 | replay starts at entry 1 and rows that no entry writes are unchanged; for a descriptor in post-order (`Ordered`, which the traversal provides on a tree) every replayed entry's row is the Fitch step of its children's final rows |
| ParsimonyEval.EvalKernel | sub_binaries/RAxML-7.1.0/raxmlParsimony.c:487-503 | the kernel chosen by the partition's data type returns the weighted edge cost of the two rows |
| ParsimonyEval.EvaluatePartition | sub_binaries/RAxML-7.1.0/raxmlParsimony.c:468-503 | a tip endpoint is passed as the right-hand raw row; the result is the weighted edge cost of the two endpoints' rows |
| ParsimonyEval.EvaluateParsimonyIterative | sub_binaries/RAxML-7.1.0/raxmlParsimony.c:452-507 | after the replay, the result is the edge score of entry 0's anchor edge in the rows then in place, summed over all partitions; for a post-order descriptor every replayed row is the Fitch step of its children's rows |
| ParsimonyEval.EvaluateEdge | sub_binaries/RAxML-7.1.0/raxmlParsimony.c:466-504 | the loop over partitions sums every partition's edge cost |
| ParsimonyEval.AddPartition | sub_binaries/RAxML-7.1.0/raxmlParsimony.c:466-504 | adding partition m's cost to the sum over partitions 0..m−1 gives the sum over 0..m |
| ParsimonyTopology.TestLinksRestore | sub_binaries/RAxML-7.1.0/raxmlParsimony.c:700-751 | with p's arms detached, insertion into q–r followed by the restoring hookups gives back the original links |
| ParsimonyTopology.InsertRandom | sub_binaries/RAxML-7.1.0/raxmlParsimony.c:618-626 | p is linked into edge q–r and nothing else changes |
| ParsimonyTopology.InsertParsimony | sub_binaries/RAxML-7.1.0/raxmlParsimony.c:606-616 | p is linked into edge q–r; p's vectors are then recomputed: p holds the flag and its entry ends the descriptor, and when the links behind p form a tree the descriptor is in post-order and every replayed row is the Fitch step of its children's rows |
| ParsimonyTopology.RemoveNodeParsimony | sub_binaries/RAxML-7.1.0/raxmlParsimony.c:884-896 | q and r are re-linked as each other's `back`, p's arms become NULL, and q is returned |
| ParsimonyTopology.BuildNewTip | sub_binaries/RAxML-7.1.0/raxmlParsimony.c:629-640 | the next unused inner node is taken (`nextnode` increases by 1) and its record is linked to p; its cycle stays closed and holds the flag |
| ParsimonyTopology.BuildSimpleTree | sub_binaries/RAxML-7.1.0/raxmlParsimony.c:642-671 | the three tips are joined at one new inner node, `ntips == 3`, and `start` is the smallest of the three (both the scored and the random variant) |
| ParsimonyTopology.MakeStar | sub_binaries/RAxML-7.1.0/raxmlParsimony.c:647-654 | the three tips hang off one new inner vertex |
| ParsimonyTopology.StarFrame | sub_binaries/RAxML-7.1.0/raxmlParsimony.c:647-653 | the first two tips are hooked together and the third gets a new inner node |
| ParsimonyTopology.HandleOfTip | sub_binaries/RAxML-7.1.0/raxmlParsimony.c:1393 | a tip's handle in `nodep` is its own record |
| ParsimonyTopology.HandleOfInner | sub_binaries/RAxML-7.1.0/raxmlParsimony.c:633 | an inner number's handle is a record of that inner vertex |
| ParsimonyTopology.StarLinks | sub_binaries/RAxML-7.1.0/raxmlParsimony.c:644-655 | hooking the first two tips, giving the third a new node and inserting that node into the first edge yields the star on the three tips |
| ParsimonyTopology.UngroupedSubtreeIsTried | sub_binaries/RAxML-7.1.0/raxmlParsimony.c:706-719 | when p's group and every group of p's subtree is −9, every insertion point is tried |
| ParsimonyTopology.GroupOf | sub_binaries/RAxML-7.1.0/raxmlParsimony.c:712-725 | a vertex's constraint group, or, when that is −9, what `checker` finds behind it |
| ParsimonyTopology.DoIt | sub_binaries/RAxML-7.1.0/raxmlParsimony.c:704-731 | `doIt` of `testInsertParsimony`: always without grouping; with grouping when p's group is −9 or equals q's or r's; `UngroupedSubtreeIsTried` proves an ungrouped pruned subtree is tried everywhere |
| ParsimonyTopology.TestInsertParsimony | sub_binaries/RAxML-7.1.0/raxmlParsimony.c:700-751 | an insertion the grouping allows is scored and undone, leaving the q–r link restored and p's arms NULL; the best score becomes the minimum of the old best and the insertion score of p in q–r, and a strictly lower score records q and p as insert and remove node; the trial log holds that one attempt, or none when the grouping forbids it |
| ParsimonyTopology.TryInsert | sub_binaries/RAxML-7.1.0/raxmlParsimony.c:733-748 | the insertion is scored and undone; the best score becomes the minimum of the old best and the insertion score, and only a strictly lower score records the move |
| ParsimonyTopology.ScoreInsertion | sub_binaries/RAxML-7.1.0/raxmlParsimony.c:735-743 | p is inserted into q–r; the best score becomes the minimum of the old best and the score of the edge from p's third record to the old q->back, and only a strictly lower score replaces the move |
| ParsimonyTopology.InsertAndScore | sub_binaries/RAxML-7.1.0/raxmlParsimony.c:735-736 | the links become the insertion of p into q–r and the returned score is the weighted edge score between p's third record and the old q->back in the recomputed rows; on a tree that descriptor is in post-order and every replayed row is a Fitch step |
| ParsimonyTopology.DetachEnds | sub_binaries/RAxML-7.1.0/raxmlParsimony.c:746 | p's two arms are set to NULL and nothing else changes |
| ParsimonyTopology.ScoreAt | sub_binaries/RAxML-7.1.0/raxmlParsimony.c:510-538 | the score taken is the weighted edge score across p–p->back in the rows after replay; when both sides of the edge are disjoint trees the descriptor is in post-order and every replayed row is the Fitch step of its children's rows |
| ParsimonyTopology.AfterAppend | sub_binaries/RAxML-7.1.0/raxmlParsimony.c:733-743 | keeping the best over two runs of trials one after the other is keeping it over the first run and then the second |
| ParsimonyTopology.AfterIsFirstMinimum | sub_binaries/RAxML-7.1.0/raxmlParsimony.c:737-743 | after a run of trials the kept score is at most the old one and at most every trial's score; an unchanged score keeps the old move, and a lower one is some trial's score and move, the first trial reaching that minimum |
| ParsimonyTopology.InsertLinksShapeAny | sub_binaries/RAxML-7.1.0/raxmlParsimony.c:606-616 | after any insertion, p->next->next links to a record |
| ParsimonyTopology.RestoreTreeParsimony | sub_binaries/RAxML-7.1.0/raxmlParsimony.c:754-784 | p is linked into edge q–r, and the call succeeds exactly when p and q end up holding their flags |
| ParsimonyTopology.SettleEnds | sub_binaries/RAxML-7.1.0/raxmlParsimony.c:758-783 | the flag loops end with p and q holding their flags, or report failure |
| ParsimonySubtree.NodesInRange | sub_binaries/RAxML-7.1.0/raxmlParsimony.c:673-697 | the vertices of a subtree are node numbers and include its root |
| ParsimonySubtree.CheckerFindsGroup | sub_binaries/RAxML-7.1.0/raxmlParsimony.c:673-697 | `checker` returns −9 exactly when every vertex of the subtree is ungrouped; otherwise it returns a group some vertex of the subtree carries |
| ParsimonySubtree.Checker | sub_binaries/RAxML-7.1.0/raxmlParsimony.c:673-697 | `checker(p)`: p's own group when it has one, else the first group found behind p->next->back, else behind p->next->next->back, else −9; `CheckerFindsGroup` proves that −9 means an ungrouped subtree |
| ParsimonySubtree.TipHomogeneityMeansAllTips | sub_binaries/RAxML-7.1.0/raxmlParsimony.c:900-913 | `tipHomogeneityChecker` holds exactly when every tip of the subtree carries the given grouping |
| ParsimonySubtree.TipHomogeneityChecker | sub_binaries/RAxML-7.1.0/raxmlParsimony.c:900-913 | `tipHomogeneityChecker`: a tip compares its group with the grouping, an inner record asks both arms; `TipHomogeneityMeansAllTips` proves it tests every tip of the subtree |
| ParsimonySubtree.FindAnyTipFinds | sub_binaries/RAxML-7.1.0/raxmlParsimony.c:816-819 | `findAnyTip` returns a tip record of the subtree, and finds one whenever the subtree is finite |
| ParsimonySubtree.FindAnyTip | sub_binaries/RAxML-7.1.0/raxmlParsimony.c:816-819 | `findAnyTip`: follows p->next->back until a tip; `FindAnyTipFinds` proves the result is a tip of the subtree |
| ParsimonySubtree.JoinCounts | sub_binaries/RAxML-7.1.0/raxmlParsimony.c:787-801 | joining two subtrees at a new inner vertex adds their tips and adds their inner vertices plus one |
| ParsimonySubtree.SubtreeCounts | sub_binaries/RAxML-7.1.0/raxmlParsimony.c:787-801 | a rooted binary subtree has one more tip than inner vertices, and `markBranches` lists two records per inner vertex |
| ParsimonySubtree.MarkBranchesShape | sub_binaries/RAxML-7.1.0/raxmlParsimony.c:787-801 | every record `markBranches` lists is an inner record |
| ParsimonySubtree.MarkBranchesInSubtree | sub_binaries/RAxML-7.1.0/raxmlParsimony.c:787-801 | every record `markBranches` lists belongs to the subtree |
| ParsimonySubtree.MarkBranches | sub_binaries/RAxML-7.1.0/raxmlParsimony.c:787-801 | `markBranches`: an inner vertex lists its two arms and then its children's lists; `SubtreeCounts`, `MarkBranchesShape` and `MarkBranchesInSubtree` prove the count and that only inner records of the subtree are listed |
| ParsimonyBuild.MarkBranchesInto | sub_binaries/RAxML-7.1.0/raxmlParsimony.c:787-801 | the branch array gains exactly the subtree's branch records from the counter on; the entries before the counter and after the new counter are unchanged |
| ParsimonyBuild.MarkArms | sub_binaries/RAxML-7.1.0/raxmlParsimony.c:792-799 | an inner vertex writes its two arms, then its children's branches |
| ParsimonyBuild.MarkBranchesInner | sub_binaries/RAxML-7.1.0/raxmlParsimony.c:792-799 | an inner vertex's branch list is its two arms followed by the lists of its two children |
| ParsimonyBuild.PutArms | sub_binaries/RAxML-7.1.0/raxmlParsimony.c:793-794 | two entries are written at the counter and nothing else |
| ParsimonyBuild.MarkBoth | sub_binaries/RAxML-7.1.0/raxmlParsimony.c:798-799 | the two children's branch lists are written one after the other |
| ParsimonyBuild.RestoreTreeRearrangeParsimony | sub_binaries/RAxML-7.1.0/raxmlParsimony.c:1017-1021 | the recorded best move is replayed: removeNode is cut out and re-inserted at insertNode; a move that cannot be replayed leaves the links unchanged |
| ParsimonyBuild.CanReplay | sub_binaries/RAxML-7.1.0/raxmlParsimony.c:1017-1021 | reports exactly whether the recorded move can be replayed |
| ParsimonyBuild.ReplayAtOrigin | sub_binaries/RAxML-7.1.0/raxmlParsimony.c:1017-1021 | replaying a cut back into the edge it was cut from restores the tree |
| ParsimonyBuild.PreorderShape | sub_binaries/RAxML-7.1.0/raxmlParsimony.c:1418-1450 | `reorderNodes` lists only inner records |
| ParsimonyBuild.PreorderListsInnerVertices | sub_binaries/RAxML-7.1.0/raxmlParsimony.c:1418-1450 | the preorder lists each inner vertex of the subtree exactly once |
| ParsimonyBuild.JoinPreorder | sub_binaries/RAxML-7.1.0/raxmlParsimony.c:1447-1448 | a vertex followed by its children's preorders lists the inner vertices of the joined subtree once each |
| ParsimonyBuild.NumbersOfOne | sub_binaries/RAxML-7.1.0/raxmlParsimony.c:1418-1450 | a one-record list names one vertex |
| ParsimonyBuild.NumbersOfAppend | sub_binaries/RAxML-7.1.0/raxmlParsimony.c:1418-1450 | the vertices of a concatenation are the union of both lists' vertices |
| ParsimonyBuild.InnersOfJoin | sub_binaries/RAxML-7.1.0/raxmlParsimony.c:1418-1450 | the inner vertices of a joined subtree are the new vertex and both children's inner vertices |
| ParsimonyBuild.PlaceInOrder | sub_binaries/RAxML-7.1.0/raxmlParsimony.c:1426-1442 | the record whose number is p's is found among the handles and written at position k, and nothing else changes |
| ParsimonyBuild.PutOne | sub_binaries/RAxML-7.1.0/raxmlParsimony.c:1430-1437 | writing one handle changes only position k |
| ParsimonyBuild.ReorderNodes | sub_binaries/RAxML-7.1.0/raxmlParsimony.c:1418-1450 | the block written from the counter on is the preorder of p's inner vertices; the rest of `nodep` is unchanged |
| ParsimonyBuild.ReorderInner | sub_binaries/RAxML-7.1.0/raxmlParsimony.c:1422-1449 | an inner vertex's block is the vertex followed by its children's blocks |
| ParsimonyBuild.ReorderArms | sub_binaries/RAxML-7.1.0/raxmlParsimony.c:1447-1448 | the children are reordered after the vertex itself |
| ParsimonyBuild.ArmsInRange | sub_binaries/RAxML-7.1.0/raxmlParsimony.c:1447-1448 | p's arms are records |
| ParsimonyBuild.PreorderInner | sub_binaries/RAxML-7.1.0/raxmlParsimony.c:1447-1448 | a vertex followed by the children's blocks is its preorder |
| ParsimonyBuild.ReorderBoth | sub_binaries/RAxML-7.1.0/raxmlParsimony.c:1447-1448 | the two children's preorders are written one after the other |
| ParsimonyBuild.Spliced | sub_binaries/RAxML-7.1.0/raxmlParsimony.c:1418-1450 | a spliced block keeps the prefix and draws each new entry from the preorder |
| ParsimonyBuild.NodeRectifier | sub_binaries/RAxML-7.1.0/raxmlParsimony.c:1452-1470 | `start` becomes tip 1; the inner entries of `nodep` become the preorder of the tree behind `start->back`; the tip entries and the tail are unchanged, and every entry is still a record of its vertex |
| ParsimonyBuild.RewriteInnerEntries | sub_binaries/RAxML-7.1.0/raxmlParsimony.c:1463-1466 | the inner handles are rewritten in preorder and remain records of their vertices |
| ParsimonyBuild.RecordsAfterSplice | sub_binaries/RAxML-7.1.0/raxmlParsimony.c:1463-1466 | after the splice every handle is still a record of its vertex |
| ParsimonyBuild.SearchPass | sub_binaries/RAxML-7.1.0/raxmlParsimony.c:1545-1554 | one rearrangement pass over all nodes never raises `randomMP`, and `randomMP` ends equal to the best score |
| ParsimonyBuild.SearchPasses | sub_binaries/RAxML-7.1.0/raxmlParsimony.c:1542-1558 | the search loop keeps `randomMP` non-increasing and stops after a pass with no improvement (`randomMP == startMP`) |
| ParsimonyBuild.HandlesGiveNodeRecords | sub_binaries/RAxML-7.1.0/raxmlParsimony.c:1463-1464 | a tree with its initial handles has a record of each vertex in `nodep` |
| ParsimonyBuild.AddTaxon | sub_binaries/RAxML-7.1.0/raxmlParsimony.c:1514-1532 | adding the next taxon raises `ntips` and `nextnode` by one, takes the next unused inner record q, and starts the best score at INT_MAX: best score and move end as the first strictly lowest of q's trials; a successful addition keeps the best score at least 1000 below INT_MAX, as the assertion demands; when the search starts `Away` from q, so that the trial insertions give the links back, the links end as q inserted at the kept edge `insertNode` of the tree with the new tip hung from q, with both ends current |
| ParsimonyBuild.PlaceNewTip | sub_binaries/RAxML-7.1.0/raxmlParsimony.c:1524-1531 | the new node q is tried in the edges of the tree; the trial log moves only q, and best score, insert and remove node end as the first strictly lowest score of the log; on success the score is at least 1000 below INT_MAX and q is the node to restore; the final links are the links the search left with p's neighbour inserted at `insertNode`, both ends current, and the search left the links as they were when it started `Away` from q |
| ParsimonyBuild.Settle | sub_binaries/RAxML-7.1.0/raxmlParsimony.c:1527-1531 | on success pb is inserted into the edge at `ins` (the links become `InsertLinks`), both ends hold their `x` flags, and the assertion on the score holds; a NULL link, flags the bounded loops could not settle, or a failed assertion report failure |
| ParsimonyBuild.StepwiseAddition | sub_binaries/RAxML-7.1.0/raxmlParsimony.c:1514-1532 | the addition loop runs to the last taxon: on success `ntips == mxtips` and `nextnode == 2·mxtips − 1` |
| ParsimonyBuild.GrowTree | sub_binaries/RAxML-7.1.0/raxmlParsimony.c:1509-1532 | from the three-taxon star, stepwise addition runs to the last taxon (`ntips == mxtips`, `nextnode == 2·mxtips − 1`), with every handle a record of its vertex and `start` a record |
| ParsimonyBuild.MakeParsimonyTreeRapid | sub_binaries/RAxML-7.1.0/raxmlParsimony.c:1586-1676 | on success the rapid variant reaches `ntips == mxtips` and leaves `start` on an edge of the tree |
| ParsimonyBuild.MakeParsimonyTree | sub_binaries/RAxML-7.1.0/raxmlParsimony.c:1473-1584 | stepwise addition followed by the search loop ends with `randomMP == startMP == bestParsimony` |
| ParsimonyBuild.BranchCount | sub_binaries/RAxML-7.1.0/raxmlParsimony.c:1402-1406 | a tree behind f with t tips has 2t − 1 branches listed |
| ParsimonyBuild.BranchesAreRecords | sub_binaries/RAxML-7.1.0/raxmlParsimony.c:1402-1408 | every listed branch is a record |
| ParsimonyBuild.PickBranch | sub_binaries/RAxML-7.1.0/raxmlParsimony.c:1402-1408 | the branch list has 2(ntips−1)−3 entries, and the pick is entry `randomInt(count)` of it |
| ParsimonyBuild.AddRandomTaxon | sub_binaries/RAxML-7.1.0/raxmlParsimony.c:1391-1410 | each random addition raises `ntips` and `nextnode` by one and takes the next unused inner record |
| ParsimonyBuild.RandomAddition | sub_binaries/RAxML-7.1.0/raxmlParsimony.c:1389-1412 | the random-addition loop runs to the last taxon: on success `ntips == mxtips` and `nextnode == 2·mxtips − 1` |
| ParsimonyBuild.MakeRandomTree | sub_binaries/RAxML-7.1.0/raxmlParsimony.c:1372-1415 | on success a random tree reaches `ntips == mxtips` and `nextnode == 2·mxtips − 1`, keeping every handle a record of its vertex |
| ParsimonySearch.AddTraverseParsimony | sub_binaries/RAxML-7.1.0/raxmlParsimony.c:803-813 | trying p at q and, within the distance bounds, below q never raises the best score; each attempt is logged as a trial (p, q, insertion score); best score, insert node and remove node end as `After` of the old ones and the log: the first strictly lowest score among the trials, if it beats the old best; every trial moves p; when the visited part of the tree lies away from p, the links end as they began |
| ParsimonySearch.TraverseChildren | sub_binaries/RAxML-7.1.0/raxmlParsimony.c:808-812 | both children of an inner q are searched with the distance raised by one, and the two trial logs are joined in order |
| ParsimonySearch.TestIfDue | sub_binaries/RAxML-7.1.0/raxmlParsimony.c:805-806 | an insertion is tried only when doAll is set or the distance reaches mintrav |
| ParsimonySearch.RejoinRoundTrip | sub_binaries/RAxML-7.1.0/raxmlParsimony.c:949-967 | removing p and hooking its arms back to p1 and p2 restores the links |
| ParsimonySearch.PruneAndSearch | sub_binaries/RAxML-7.1.0/raxmlParsimony.c:949-963 | pruning p and searching the edges under p1 and p2 never raises the best score; each attempt is logged as a trial (p, q, insertion score); best score, insert node and remove node end as `After` of the old ones and the log: the first strictly lowest score among the trials, if it beats the old best |
| ParsimonySearch.PruneSearchRejoin | sub_binaries/RAxML-7.1.0/raxmlParsimony.c:949-968 | the p-side move prunes, searches and re-hooks p to p1 and p2, leaving the topology unchanged; each attempt is logged as a trial (p, q, insertion score); best score, insert node and remove node end as `After` of the old ones and the log: the first strictly lowest score among the trials, if it beats the old best |
| ParsimonySearch.SearchBoth | sub_binaries/RAxML-7.1.0/raxmlParsimony.c:953-963 | the edges under both neighbours are searched |
| ParsimonySearch.Rejoin | sub_binaries/RAxML-7.1.0/raxmlParsimony.c:966-967 | p's arms are hooked back to p1 and p2 |
| ParsimonySearch.HasInnerChild | sub_binaries/RAxML-7.1.0/raxmlParsimony.c:976-985 | the q-side move is worth making exactly when q1 or q2 is inner |
| ParsimonySearch.RearrangeNear | sub_binaries/RAxML-7.1.0/raxmlParsimony.c:942-970 | the p-side move never raises the best score and leaves the topology unchanged; each attempt is logged as a trial (p, q, insertion score); best score, insert node and remove node end as `After` of the old ones and the log: the first strictly lowest score among the trials, if it beats the old best |
| ParsimonySearch.RearrangeFar | sub_binaries/RAxML-7.1.0/raxmlParsimony.c:972-1011 | the q-side move never raises the best score and leaves the topology unchanged; each attempt is logged as a trial (p, q, insertion score); best score, insert node and remove node end as `After` of the old ones and the log: the first strictly lowest score among the trials, if it beats the old best; every trial moves q |
| ParsimonySearch.Clamp | sub_binaries/RAxML-7.1.0/raxmlParsimony.c:921-922 | maxtrav is clamped to ntips − 3 |
| ParsimonySearch.RearrangeParsimony | sub_binaries/RAxML-7.1.0/raxmlParsimony.c:915-1014 | returns 0 exactly when maxtrav falls below mintrav or the constraints forbid both sides, and then changes nothing; otherwise returns 1; the best score never rises, each attempt is logged as a trial (p, q, insertion score); best score, insert node and remove node end as `After` of the old ones and the log: the first strictly lowest score among the trials, if it beats the old best; every trial moves p or p->back, and the links end as they began |
| ParsimonyDrivers.NewviewParsimony | sub_binaries/RAxML-7.1.0/raxmlParsimony.c:541-557 | a tip changes nothing; for an inner p the descriptor ends with p's entry; when the links behind p form a tree the call succeeds, the descriptor is in post-order and, after replay, every replayed row (p's last) is the Fitch step of its children's rows |
| ParsimonyDrivers.EvaluateParsimony | sub_binaries/RAxML-7.1.0/raxmlParsimony.c:510-538 | entry 0 becomes the edge p–p->back and the result is the weighted edge score across that edge in the replayed rows; when both sides of the edge are disjoint trees the call succeeds and the descriptor is in post-order |
| ParsimonyDrivers.OrientEnds | sub_binaries/RAxML-7.1.0/raxmlParsimony.c:519-522 | both ends of the edge are brought up to date before scoring; with disjoint trees on both sides the call succeeds and the two runs form one post-order descriptor |
| ParsimonyDrivers.InitravParsimonyNormal | sub_binaries/RAxML-7.1.0/raxmlParsimony.c:565-582 | a tip changes nothing; for an inner p the descriptor ends with p's entry, and on a tree behind p p holds its flag, the descriptor is in post-order and every replayed row is the Fitch step of its children's rows |
| ParsimonyDrivers.InitravChildren | sub_binaries/RAxML-7.1.0/raxmlParsimony.c:571-578 | the subtrees behind p->next and p->next->next are walked in turn; on success both arms are linked and the child walked last is current; entry 0 is untouched |
| ParsimonyDrivers.InitravDISTParsimony | sub_binaries/RAxML-7.1.0/raxmlParsimony.c:864-881 | a tip, or a distance of 0 or less, changes nothing; otherwise the subtree behind p->next is visited with distance−1, the one behind p->next->next with distance−2, and p is then recomputed; on a tree behind p the descriptor is in post-order and every replayed row is a Fitch step |
| ParsimonyDrivers.InitravDISTChildren | sub_binaries/RAxML-7.1.0/raxmlParsimony.c:870-876 | with distance 1 the children are not visited |
| ParsimonyDrivers.InitravParsimony | sub_binaries/RAxML-7.1.0/raxmlParsimony.c:585-604 | every tip of the subtree is marked 1 in `constraintVector` and no other entry changes; for an inner p, on a tree behind p, the descriptor is in post-order and every replayed row is the Fitch step of its children's rows |
| ParsimonyDrivers.InitravMarkChildren | sub_binaries/RAxML-7.1.0/raxmlParsimony.c:591-598 | both children's tips are marked |
| ParsimonySetup.Range | sub_binaries/RAxML-7.1.0/raxmlParsimony.c:839-840 | the identity permutation `perm[i] = i` |
| ParsimonySetup.MakePermutation | sub_binaries/RAxML-7.1.0/raxmlParsimony.c:827-862 | succeeds exactly when every draw k satisfies `i + k <= n` (the assertion); then `perm[1..n]` is a permutation of 1..n, and `perm[0]` is untouched |
| ParsimonySetup.Shuffle | sub_binaries/RAxML-7.1.0/raxmlParsimony.c:842-856 | the swap loop keeps the multiset of `perm[1..]` for any valid draws |
| ParsimonySetup.SwapEntries | sub_binaries/RAxML-7.1.0/raxmlParsimony.c:853-855 | a swap keeps the multiset of entries |
| ParsimonySetup.HeadAndRest | sub_binaries/RAxML-7.1.0/raxmlParsimony.c:839-856 | removing entry 0 removes one copy from the multiset |
| ParsimonySetup.PermutationEntries | sub_binaries/RAxML-7.1.0/raxmlParsimony.c:827-862 | a permutation of 1..n has every entry in 1..n and no entry twice |
| ParsimonySetup.EntryInRange | sub_binaries/RAxML-7.1.0/raxmlParsimony.c:827-862 | each permuted entry lies in 1..n |
| ParsimonySetup.EntriesDiffer | sub_binaries/RAxML-7.1.0/raxmlParsimony.c:827-862 | two positions of a permutation hold different taxa |
| ParsimonySetup.OnceDistinct | sub_binaries/RAxML-7.1.0/raxmlParsimony.c:827-862 | values that occur once are at one position |
| ParsimonySetup.RangeOnce | sub_binaries/RAxML-7.1.0/raxmlParsimony.c:839-840 | 1..n holds each value at most once |
| ParsimonySetup.PresentTwo | sub_binaries/RAxML-7.1.0/raxmlParsimony.c:1286-1293 | the count of present codes is at least 2 exactly when two distinct codes occur |
| ParsimonySetup.PresentOne | sub_binaries/RAxML-7.1.0/raxmlParsimony.c:1286-1293 | the count of present codes is at least 1 exactly when some code occurs |
| ParsimonySetup.RowStartIsProduct | sub_binaries/RAxML-7.1.0/raxmlParsimony.c:1058 | taxon t's row starts at `originalCrunchedLength * t` |
| ParsimonySetup.Column | sub_binaries/RAxML-7.1.0/raxmlParsimony.c:1278-1282 | a site's column has one code per taxon |
| ParsimonySetup.ColumnPrefix | sub_binaries/RAxML-7.1.0/raxmlParsimony.c:1278-1282 | the column over the first m taxa is a prefix of the full column |
| ParsimonySetup.CountCodes | sub_binaries/RAxML-7.1.0/raxmlParsimony.c:1274-1282 | `check[c]` becomes the number of taxa showing code c; a code the type's assertions reject is reported, including a secondary-structure code whose `bitVectorSecondary` entry is 0 (raxmlParsimony.c:1111) |
| ParsimonySetup.SiteInformative | sub_binaries/RAxML-7.1.0/raxmlParsimony.c:1083-1368 | a site is informative exactly when at least two distinct codes of the type's counted range occur and some code occurs in at least two taxa |
| ParsimonySetup.AACGIsInformative | sub_binaries/RAxML-7.1.0/raxmlParsimony.c:1274-1314 | the DNA column A, A, C, G counts as informative: two taxa share A, and more than one code occurs |
| ParsimonySetup.Filter | sub_binaries/RAxML-7.1.0/raxmlParsimony.c:1060-1066 | the kept entries are no more than the entries |
| ParsimonySetup.FilterStep | sub_binaries/RAxML-7.1.0/raxmlParsimony.c:1060-1066 | one more site keeps its entry exactly when it is informative |
| ParsimonySetup.FilterAt | sub_binaries/RAxML-7.1.0/raxmlParsimony.c:1060-1066 | the compacted row has `endsite − number` entries, and entry k is the k-th informative site's entry |
| ParsimonySetup.KeptPositions | sub_binaries/RAxML-7.1.0/raxmlParsimony.c:1060-1066 | the kept positions are increasing, informative, and include every informative site |
| ParsimonySetup.ApplyRow | sub_binaries/RAxML-7.1.0/raxmlParsimony.c:1056-1066 | compacting one row keeps the array's length |
| ParsimonySetup.RowFits | sub_binaries/RAxML-7.1.0/raxmlParsimony.c:1058 | a row lies inside the tip array |
| ParsimonySetup.CompactRow | sub_binaries/RAxML-7.1.0/raxmlParsimony.c:1060-1066 | the in-place loop turns one taxon's row into its informative sites in order, followed by its old tail |
| ParsimonySetup.CompactSite | sub_binaries/RAxML-7.1.0/raxmlParsimony.c:1062-1065 | one step of the row loop extends the compacted prefix by the site when it is informative |
| ParsimonySetup.RowCompactStep | sub_binaries/RAxML-7.1.0/raxmlParsimony.c:1064 | moving one entry forward extends the compacted prefix |
| ParsimonySetup.RowFromSlices | sub_binaries/RAxML-7.1.0/raxmlParsimony.c:1060-1066 | a row is rebuilt from its three slices |
| ParsimonySetup.Row | sub_binaries/RAxML-7.1.0/raxmlParsimony.c:1058 | a tip's row has `originalCrunchedLength` entries |
| ParsimonySetup.Compacted | sub_binaries/RAxML-7.1.0/raxmlParsimony.c:1069-1078 | in-place compaction keeps the array's length |
| ParsimonySetup.RowOrder | sub_binaries/RAxML-7.1.0/raxmlParsimony.c:1058 | an earlier taxon's row ends before a later taxon's row begins |
| ParsimonySetup.ApplyRowOwn | sub_binaries/RAxML-7.1.0/raxmlParsimony.c:1056-1066 | compacting a taxon's row compacts exactly that row |
| ParsimonySetup.ApplyRowOutside | sub_binaries/RAxML-7.1.0/raxmlParsimony.c:1056-1066 | compacting a row leaves everything outside it unchanged |
| ParsimonySetup.ApplyRowOther | sub_binaries/RAxML-7.1.0/raxmlParsimony.c:1056-1066 | compacting one taxon's row leaves the other rows unchanged |
| ParsimonySetup.CompactStep | sub_binaries/RAxML-7.1.0/raxmlParsimony.c:1069-1078 | one step of the table loop keeps the compaction invariant |
| ParsimonySetup.CompactDone | sub_binaries/RAxML-7.1.0/raxmlParsimony.c:1069-1078 | at the end of the loop the table is compacted |
| ParsimonySetup.CompactTables | sub_binaries/RAxML-7.1.0/raxmlParsimony.c:1069-1078 | `aliaswgt`, `model` and `dataVector` are compacted by the same mask, in order |
| ParsimonySetup.SortInformativeSites | sub_binaries/RAxML-7.1.0/raxmlParsimony.c:1052-1079 | every tip row and `aliaswgt`, `model` and `dataVector` keep exactly their informative sites, in order, with one mask |
| ParsimonySetup.CompactTipRows | sub_binaries/RAxML-7.1.0/raxmlParsimony.c:1056-1067 | every taxon's row is compacted by the mask |
| ParsimonySetup.InformativeMask | sub_binaries/RAxML-7.1.0/raxmlParsimony.c:1098-1360 | each site gets its informative flag, and `number` counts the uninformative sites |
| ParsimonySetup.MaskStep | sub_binaries/RAxML-7.1.0/raxmlParsimony.c:1098-1360 | one more site extends the mask and counts one more uninformative site when it is uninformative |
| ParsimonySetup.DetermineUninformativeSites | sub_binaries/RAxML-7.1.0/raxmlParsimony.c:1083-1368 | every site is classified, all site tables are compacted by one mask, and `parsimonyLength == endsite − number`; a code the assertions reject changes nothing |
| ParsimonySetup.CompactedTail | sub_binaries/RAxML-7.1.0/raxmlParsimony.c:1069-1078 | entries beyond `endsite` are untouched by compaction |
| ParsimonySetup.RestoreSites | sub_binaries/RAxML-7.1.0/raxmlParsimony.c:1567-1573 | the saved copies are written back over `aliaswgt`, `model`, `dataVector` and `y0` |
| ParsimonySetup.InformativeSitesRoundTrip | sub_binaries/RAxML-7.1.0/raxmlParsimony.c:1483-1501 | saving, filtering and restoring leaves `y0`, `aliaswgt`, `model` and `dataVector` as they began |
| Taxonomy.Lineage | treesapp/taxonomic_hierarchy.py:32-42 | `lineage()` starts at a parentless root, ends with the taxon itself, and each entry's parent is the entry before it |
| Taxonomy.LineagePrefix | treesapp/taxonomic_hierarchy.py:32-42 | the lineage of an ancestor is the prefix of the lineage ending at that ancestor |
| Taxonomy.AncestorDepth | treesapp/taxonomic_hierarchy.py:32-42 | the k-th ancestor's lineage has length k + 1 |
| Taxonomy.DistUpDepth | treesapp/taxonomic_hierarchy.py:55-62 | walking up the parents from a taxon to an ancestor counts the difference in depth |
| Taxonomy.TaxDistToAncestor | treesapp/taxonomic_hierarchy.py:55-62 | `tax_dist` to an ancestor is the difference of the two lineage lengths |
| Taxonomy.TaxDistDefined | treesapp/taxonomic_hierarchy.py:55-62 | `tax_dist` to an ancestor terminates with a value |
| Taxonomy.TaxDist | treesapp/taxonomic_hierarchy.py:55-62 | `tax_dist`: the number of parent steps from one taxon to another, None when the second is not reached; `TaxDistToAncestor` and `TaxDistDefined` prove it is the difference of lineage lengths |
| Taxonomy.DeepestMatch | treesapp/taxonomic_hierarchy.py:82-87 | popping both lineages together finds the deepest position where they agree, or None when they agree nowhere |
| Taxonomy.Lca | treesapp/taxonomic_hierarchy.py:73-87 | `lca` pops the longer lineage down to equal length, then pops both until the taxa coincide, giving the specified common ancestor |
| Taxonomy.PopToCommon | treesapp/taxonomic_hierarchy.py:77-87 | the pop loops return the deepest entry at which two equally long lineages agree |
| Taxonomy.SameDepth | treesapp/taxonomic_hierarchy.py:73-87 | a taxon sits at the same depth in every lineage that contains it |
| Taxonomy.LcaDeepest | treesapp/taxonomic_hierarchy.py:73-87 | the result lies on both lineages and is at least as deep as every common taxon; it is None exactly when the lineages share no taxon |
| Taxonomy.SliceAfter | treesapp/taxonomic_hierarchy.py:98-103 | the slice holds only entries of the lineage |
| Taxonomy.LineageSlice | treesapp/taxonomic_hierarchy.py:90-103 | `lineage_slice` is what follows stop_taxon in start's lineage |
| Taxonomy.SliceAfterSpec | treesapp/taxonomic_hierarchy.py:98-103 | it is the rest of the lineage after stop_taxon, and `[]` when stop_taxon is not in the lineage |
| Taxonomy.LineageSliceBounds | treesapp/taxonomic_hierarchy.py:90-103 | the slice after an ancestor excludes the ancestor and includes start exactly when start is not the ancestor |
| Taxonomy.SplitPrefix | treesapp/taxonomic_hierarchy.py:1005 | splitting the join of the first d fields gives back those d fields |
| Taxonomy.SameRooted | treesapp/taxonomic_hierarchy.py:213-224 | changing coverages keeps every parent chain well founded |
| Taxonomy.SameLineage | treesapp/taxonomic_hierarchy.py:213-224 | changing coverages leaves every lineage unchanged |
| Taxonomy.RmTaxon | treesapp/taxonomic_hierarchy.py:213-224 | the taxon's coverage drops by `decrement` and no other taxon changes; its own key is removed from the hierarchy when coverage reaches 0 or below, else the hierarchy is unchanged |
| Taxonomy.RmLineage | treesapp/taxonomic_hierarchy.py:905-906 | removing every taxon of a lineage lowers each coverage by the number of times the taxon occurs in it |
| Taxonomy.RemoveStep | treesapp/taxonomic_hierarchy.py:903-908 | one leaf name's removal keeps the hierarchy's keys a subset of the old keys, pointing at rooted taxa |
| Taxonomy.RemoveLeaves | treesapp/taxonomic_hierarchy.py:902-908 | removing sorted leaf names only changes coverages and drops keys, and every found leaf is a taxon |
| Taxonomy.RemoveLeavesAccounting | treesapp/taxonomic_hierarchy.py:890-912 | `lineages_fed` drops once per leaf found, and each taxon's coverage drops once for every found leaf whose lineage contains it |
| Taxonomy.RemoveLeavesAbsent | treesapp/taxonomic_hierarchy.py:903-904 | names that are not in the hierarchy are skipped and change nothing |
| Taxonomy.AliasInjective | treesapp/taxonomic_hierarchy.py:335-342 | different counters give different aliases `prefix__name_i` |
| Taxonomy.Bump | treesapp/taxonomic_hierarchy.py:373 | `child.coverage += 1` changes that coverage only |
| Taxonomy.ClashOf | treesapp/taxonomic_hierarchy.py:372-396 | only a clash with two distinct parents can chain to a renamed twin or be recorded as a conflict |
| Taxonomy.TaxDistToMember | treesapp/taxonomic_hierarchy.py:381-382 | the distance from a parent to the common ancestor is defined |
| Taxonomy.DigestedNameSuffix | treesapp/taxonomic_hierarchy.py:410-411 | the stripped name is a suffix of the taxon that lies past the whole `prefix__` |
| Taxonomy.StripsAtLeast | treesapp/taxonomic_hierarchy.py:411 | `lstrip` removes at least the leading characters that belong to the set |
| Taxonomy.DigestStripsCharacterSet | treesapp/taxonomic_hierarchy.py:410-411 | because `lstrip` strips a set of characters, a name that begins with one of them is not recovered from `prefix__name` (e.g. `c__candidatus` with prefix `c` loses its first `c`) |
| Taxonomy.TheName | treesapp/taxonomic_hierarchy.py:295-296 | `rank_names.pop()` on a one-element set returns its member |
| Taxonomy.SettleAfterWhet | treesapp/taxonomic_hierarchy.py:284-313 | validating after `whet` gives back the validated map |
| Taxonomy.WhetAfterSettle | treesapp/taxonomic_hierarchy.py:284-313 | `whet` after validating a conflict-free map gives back the map of sets |
| Taxonomy.SettledShape | treesapp/taxonomic_hierarchy.py:294-302 | after validation every prefix maps to a single name, or to the empty set that is left as it is |
| Taxonomy.TrimAllFails | treesapp/taxonomic_hierarchy.py:997-1016 | trimming succeeds exactly when no lineage long enough to keep fails: its last kept taxon must be non-empty and start with a prefix that names the rank |
| Taxonomy.TrimAllKept | treesapp/taxonomic_hierarchy.py:997-1005 | on success the result has only input keys, and holds a key exactly when its lineage is kept, with the trimmed lineage as value |
| Taxonomy.TrimOneKeeps | treesapp/taxonomic_hierarchy.py:997-1016 | a kept lineage has more than one taxon and at least `depth` taxa; it is cut to its first `depth` taxa, and the last of them carries the prefix of the rank |
| Taxonomy.TrimAllStuck | treesapp/taxonomic_hierarchy.py:1009-1016 | after the first failing lineage the result no longer depends on later ones, as the process stops there |
| Taxonomy.TrimAll | treesapp/taxonomic_hierarchy.py:997-1016 | the loop of `trim_lineages_to_rank`; `TrimAllFails`, `TrimAllKept` and `TrimAllStuck` prove when it fails and what it keeps |
| Taxonomy.TrimNodes | treesapp/taxonomic_hierarchy.py:997-1016 | the loop computes the specified trimming, stopping at the first failure |
| Taxonomy.StripRankPrefixNames | treesapp/taxonomic_hierarchy.py:749-757 | a lineage of `prefix__name` taxa (with no '_' or ';' inside the parts) becomes the lineage of bare names |
| Taxonomy.StripRankPrefix | treesapp/taxonomic_hierarchy.py:749-757 | `strip_rank_prefix`: every taxon of the lineage loses its `prefix__` part; `StripRankPrefixNames` proves it on lineages of prefixed names |
| Taxonomy.StripRankIdempotent | treesapp/taxonomic_hierarchy.py:752-756 | stripping the rank prefix of a taxon twice is the same as once |
| Taxonomy.DigestKey | treesapp/taxonomic_hierarchy.py:29-30 | a new taxon's `prefix_taxon()` is the key `digest_taxon` stores it under |
| Taxonomy.TaxonomicHierarchy.constructor | treesapp/taxonomic_hierarchy.py:110-134 | a new hierarchy is empty, has no conflicts, has fed no lineages, and maps the prefixes 'n' and 'r' to the sets {"no rank"} and {"root"} |
| Taxonomy.TaxonomicHierarchy.RmTaxonFromHierarchy | treesapp/taxonomic_hierarchy.py:213-224 | the state becomes RmTaxon of the old state |
| Taxonomy.TaxonomicHierarchy.Absorb | treesapp/taxonomic_hierarchy.py:44-53 | the taxon's coverage becomes the sum of both coverages, and nothing else changes |
| Taxonomy.TaxonomicHierarchy.RemoveLineage | treesapp/taxonomic_hierarchy.py:905-906 | every taxon of the lineage loses one coverage per occurrence |
| Taxonomy.TaxonomicHierarchy.RemoveLeafNodes | treesapp/taxonomic_hierarchy.py:890-912 | the names are removed in sorted order, as RemoveLeaves specifies |
| Taxonomy.TaxonomicHierarchy.RemoveLeaf | treesapp/taxonomic_hierarchy.py:903-908 | one name's removal is one RemoveStep |
| Taxonomy.TaxonomicHierarchy.HierarchyKeyChain | treesapp/taxonomic_hierarchy.py:327-351 | returns the first alias `name_i` whose taxon has the given parent; if there is none, creates a twin named after the first free alias with that parent and stores it under the twin's prefixed name (`PrefixTaxon(twin)`); aliases before i are all taken by taxa with other parents |
| Taxonomy.TaxonomicHierarchy.EvaluateHierarchyClash | treesapp/taxonomic_hierarchy.py:353-396 | no new parent or the same parent raises coverage; parents with no common ancestor chain to an alias; an all-"no rank" slice, or both parents within one step of the common ancestor, raises coverage and records the conflict; longer paths chain to an alias; p2 = None with p1 set raises |
| Taxonomy.TaxonomicHierarchy.ClashWithAncestor | treesapp/taxonomic_hierarchy.py:379-396 | with a common ancestor, the ranks of both slices and the distances decide between recording a conflict and chaining |
| Taxonomy.TaxonomicHierarchy.BumpConflict | treesapp/taxonomic_hierarchy.py:387-389 | coverage rises by one and the parent pair is added to the conflicts |
| Taxonomy.TaxonomicHierarchy.DigestTaxon | treesapp/taxonomic_hierarchy.py:398-426 | a bad taxon returns None and changes nothing; an unseen key stores a new taxon with coverage 1, the given parent and prefix; an existing key goes through the clash evaluation with the previous taxon and its old parent |
| Taxonomy.TaxonomicHierarchy.Whet | treesapp/taxonomic_hierarchy.py:306-313 | the prefix map's values become sets, and a map that already holds sets is unchanged |
| Taxonomy.TaxonomicHierarchy.ValidateRankPrefixes | treesapp/taxonomic_hierarchy.py:284-304 | fails (exit 5) exactly when some prefix has two or more rank names; otherwise every one-name set becomes its name and the values are marked as strings |
| Taxonomy.Validate | treesapp/taxonomic_hierarchy.py:284-304 | the outcome of `validate_rank_prefixes`: None when some prefix has two or more rank names, else the map with every one-name set replaced by its name; `ValidateRankPrefixes` is proved against it |
| Taxonomy.TaxonomicHierarchy.TrimLineagesToRank | treesapp/taxonomic_hierarchy.py:976-1020 | an unknown rank raises the process-ending error; a failed validation exits 5; otherwise the result is the trimming of the items in sorted key order |
| CreateRefpkg.ScreenFilterTaxa | treesapp/create_refpkg.py:400-448 | with no screen and no filter terms the records come back unchanged; otherwise exactly the records whose lineage passes the screen and the filter are kept, in their order |
| CreateRefpkg.ScreenPass | treesapp/create_refpkg.py:422-429 | a lineage passes the screen exactly when there are no screen terms or some term matches it |
| CreateRefpkg.FilterPass | treesapp/create_refpkg.py:431-434 | a lineage passes the filter exactly when no filter term matches it |
| CreateRefpkg.NoTermsKeepAll | treesapp/create_refpkg.py:401-402 | the general filter with empty screen and filter strings keeps every record, so the early return agrees with the loop |
| CreateRefpkg.RemoveByTruncatedLineages | treesapp/create_refpkg.py:451-472 | an unknown rank letter raises KeyError; rank `k` keeps everything; otherwise exactly the records whose lineage has at least the rank's depth and whose taxon at that depth does not start with "unclassified" (any case) are kept |
| CreateRefpkg.KingdomKeepsUnclassified | treesapp/create_refpkg.py:454-455 | the kingdom early return keeps lineages the general test would drop, such as "Unclassified" |
| CreateRefpkg.RemoveDuplicateRecords | treesapp/create_refpkg.py:475-498 | the records are visited in increasing numeric key; the result is the de-duplication, and a kept key missing from the header registry raises KeyError |
| CreateRefpkg.DedupSeen | treesapp/create_refpkg.py:480-488 | the accessions seen are exactly those of the input and exactly those of the kept records |
| CreateRefpkg.Dedup | treesapp/create_refpkg.py:480-488 | the loop of `remove_duplicate_records` in identifier order; `DedupSeen`, `DedupDistinct`, `DedupHeaders` and `DedupFirst` prove what it keeps |
| CreateRefpkg.DedupDistinct | treesapp/create_refpkg.py:482-485 | the kept records have pairwise distinct accessions and each is an input record |
| CreateRefpkg.DedupHeaders | treesapp/create_refpkg.py:484-485 | there is one header per kept record, under the same key, taken from the registry |
| CreateRefpkg.DedupFirst | treesapp/create_refpkg.py:480-486 | for every input record the first record with its accession is the one kept |
| CreateRefpkg.SmallestIdKept | treesapp/create_refpkg.py:480-486 | for every accession a record with the smallest key among its copies is kept |
| CreateRefpkg.DedupError | treesapp/create_refpkg.py:485 | the only failure is the KeyError of a missing header |
| CreateRefpkg.RepsMembers | treesapp/create_refpkg.py:523-525 | the representatives are exactly the input's cluster representatives |
| CreateRefpkg.LineagesOf | treesapp/create_refpkg.py:526-529 | the lineage keys are exactly the representatives' lineages, without repeats |
| CreateRefpkg.WithLineage | treesapp/create_refpkg.py:529 | a lineage's list holds only representatives with that lineage |
| CreateRefpkg.Groups | treesapp/create_refpkg.py:534-535 | one group per sorted lineage key |
| CreateRefpkg.RenamedSpec | treesapp/create_refpkg.py:538-539 | the new short id is the number, an underscore and the old id without its first `_` field; nothing else in the record changes |
| CreateRefpkg.Number | treesapp/create_refpkg.py:533-541 | one numbered record per representative |
| CreateRefpkg.NumberAt | treesapp/create_refpkg.py:539-541 | the i-th output has key start+i and the i-th representative renamed to that number |
| CreateRefpkg.OrderDictByLineage | treesapp/create_refpkg.py:501-544 | exits with code 13 exactly when two input records share an accession; otherwise the result is the representatives, grouped by sorted lineage, numbered from 1 and renamed |
| CreateRefpkg.GroupRecords | treesapp/create_refpkg.py:514-529 | reports a duplicate accession exactly when there is one; otherwise the lineage table groups the representatives in first-seen order |
| CreateRefpkg.ScanRecord | treesapp/create_refpkg.py:515-529 | one step of the first loop: a duplicate is reported only when there is one, and otherwise the scan state covers one more record |
| CreateRefpkg.GroupRecord | treesapp/create_refpkg.py:524-529 | a representative is appended to its lineage's list, which is created on first sight |
| CreateRefpkg.NumberGroups | treesapp/create_refpkg.py:533-541 | the second loop numbers the groups, in sorted lineage order, from 1 |
| CreateRefpkg.NumberGroup | treesapp/create_refpkg.py:535-541 | one group is numbered on from the running key, which rises by the group's size |
| CreateRefpkg.GroupsMultiset | treesapp/create_refpkg.py:534-541 | the concatenated groups are a permutation of the representatives whose lineage is listed |
| CreateRefpkg.OrderedPermutation | treesapp/create_refpkg.py:531-541 | the re-ordering is a permutation of the representatives: none is lost or repeated |
| CreateRefpkg.SortedLineages | treesapp/create_refpkg.py:534 | the sorted keys hold each lineage once and cover every representative's lineage |
| CreateRefpkg.GroupsSorted | treesapp/create_refpkg.py:534-535 | the concatenated groups are in lineage order |
| CreateRefpkg.NumberSorted | treesapp/create_refpkg.py:533-541 | numbering keeps the records in lineage order |
| CreateRefpkg.OrderedRenumbered | treesapp/create_refpkg.py:501-544 | the output has one entry per representative, keys 1..n in order, lineages sorted, and is a permutation of the representatives |
| CreateRefpkg.GuaranteeRefSeqs | treesapp/create_refpkg.py:850-877 | the clusters are visited in increasing numeric id and the result is the guarantee fold over them |
| CreateRefpkg.GuaranteeCluster | treesapp/create_refpkg.py:855-876 | one cluster's step: the output and the expanded id follow the step function |
| CreateRefpkg.ExpandCluster | treesapp/create_refpkg.py:861-867 | every important member is added as a new cluster with no members and the cluster's LCA; the flag says whether any member was important |
| CreateRefpkg.ExpandMembers | treesapp/create_refpkg.py:861-867 | each added cluster gets a fresh id from the running counter, no members, the cluster's LCA and an important representative |
| CreateRefpkg.ExpandCovers | treesapp/create_refpkg.py:862-866 | every important member is added as a singleton cluster |
| CreateRefpkg.ExpandFrom | treesapp/create_refpkg.py:863 | every added cluster comes from a member |
| CreateRefpkg.GuaranteeKeeps | treesapp/create_refpkg.py:854-876 | a cluster with no important member, or an important representative, is kept (with members cleared in the second case), and every important member of every cluster appears as a singleton |
| CreateRefpkg.GuaranteeCopiesEmpty | treesapp/create_refpkg.py:855-856 | a cluster without members is copied unchanged |
| CreateRefpkg.GuaranteeSource | treesapp/create_refpkg.py:854-877 | every output entry is either a singleton made from an important member of some cluster, with that cluster's LCA, or a kept input cluster |
| CreateRefpkg.GuaranteeDrops | treesapp/create_refpkg.py:868-869 | a cluster with an important member but an unimportant representative is dropped |
| CreateRefpkg.TaxIdLines | treesapp/create_refpkg.py:664-678 | one line per record |
| CreateRefpkg.WriteTaxIds | treesapp/create_refpkg.py:651-689 | the file text is a line per record in increasing key order, and the warning counts and lists the accessions without a lineage |
| CreateRefpkg.TaxIdLineFields | treesapp/create_refpkg.py:676-678 | a line splits on tabs into the key, "organism \| accession" and the lineage (the cluster LCA when asked) |
| CreateRefpkg.TaxIdsTextLines | treesapp/create_refpkg.py:676-682 | the text splits on newlines into the record lines and a final empty string |
| CreateRefpkg.TaxIdsWarningCount | treesapp/create_refpkg.py:685-687 | the warning starts with the number of lineage-less records and then lists their accessions, separated by a newline and a tab |
| CreateRefpkg.Fields | treesapp/create_refpkg.py:749 | a line always has a first field |
| CreateRefpkg.UpdateBuildParameters | treesapp/create_refpkg.py:727-762 | the new table keeps the other markers' lines, without trailing newlines, in order, then the new build line; the written text joins them with newlines and ends in one |
| CreateRefpkg.KeptParamLinesStripped | treesapp/create_refpkg.py:748-751 | the kept lines are exactly the input lines whose first field is not the marker, stripped of newlines |
| CreateRefpkg.OneLinePerMarker | treesapp/create_refpkg.py:747-752 | the marker's name is the first field of the last line and of no other line |
| Utilities.Underscores | utilities.py:110 | every whitespace, `;`, `,` and `\|` becomes `_` and every other character stays |
| Utilities.ReformatString | utilities.py:102-115 | the method computes the reformatted string |
| Utilities.Reformatted | utilities.py:102-115 | what `reformat_string` returns; `ReformattedChars`, `ReformattedShape` and `ReformattedIdempotent` prove its alphabet, length bound and idempotence |
| Utilities.ReformattedChars | utilities.py:102-115 | the result is a header exactly when the input is; no bracket, slash, quote or angle bracket is left except a leading `>`, and no character that is turned to `_` is left |
| Utilities.ReformattedShape | utilities.py:111-114 | the result has at most 110 characters and does not end in `.` |
| Utilities.TrimmedChars | utilities.py:111-114 | truncating and dropping trailing dots keeps the character properties and the header mark |
| Utilities.ReformattedIdempotent | utilities.py:102-115 | reformatting a reformatted string changes nothing |
| Utilities.CheckLineageCases | utilities.py:471-485 | the lineage is returned unchanged or with the organism appended, and it is changed exactly when its last rank is not a binomial species, it has seven ranks and the organism name is one |
| Utilities.CheckLineageAppends | utilities.py:482-483 | an appended species becomes the eighth rank |
| Utilities.CheckLineage | utilities.py:471-485 | `check_lineage`: appends the organism as the species rank to a seven-rank lineage that lacks one; `CheckLineageCases` and `CheckLineageAppends` prove when it changes the lineage and how |
| Utilities.BestMatch | utilities.py:712-730 | no match is returned exactly when no full score exceeds 0, and then the target is empty; otherwise the match returned is the first with the highest score above 0, with its target HMM |
| Utilities.SortReals | utilities.py:839-841 | the sort is a sorted permutation |
| Utilities.SortedUnique | utilities.py:839-841 | two sorted permutations of one list are equal, so the median does not depend on the sort |
| Utilities.MedianMiddle | utilities.py:834-841 | an empty list has no median; an odd-length list's median is its middle sorted element; an even-length list's is the mean of the two middle sorted elements |
| Utilities.Median | utilities.py:834-841 | `median`: None for an empty list, else the middle of the sorted list or the mean of its two middle entries; `MedianMiddle` proves it |
| Utilities.WarmFrontMembers | utilities.py:956-961 | the warm front is exactly the clades that contain the start leaf |
| Utilities.FirstHoldingNone | utilities.py:962-965 | no node is found exactly when no clade of the front contains the end leaf |
| Utilities.FirstHoldingSome | utilities.py:962-965 | otherwise the first clade, in size order, containing the end leaf is chosen |
| Utilities.InnermostSmallest | utilities.py:953-965 | no node is mapped exactly when no clade holds both leaves; otherwise the node mapped is a smallest clade holding both |
| Utilities.InnerNode | utilities.py:954-965 | the method finds the innermost node for one pair of frond tips |
| Utilities.MapFronds | utilities.py:953-965 | one cluster's frond pairs map to the list of their innermost nodes |
| Utilities.ConvertOuterToInnerNodes | utilities.py:948-966 | each cluster keeps its name, in order and without repeats, and maps to the innermost nodes of its frond pairs |
| Utilities.GroupLeavesMembers | utilities.py:988-992 | a cluster's leaf group is exactly the leaves of its internal nodes |
| Utilities.AnnotatedMembers | utilities.py:994-996 | a node is annotated exactly when all its leaves are in the group |
| Utilities.AnnotatedCovers | utilities.py:988-996 | every internal node of a cluster is annotated with that cluster |
| Utilities.CollectLeaves | utilities.py:988-992 | the loop collects the leaf group |
| Utilities.CollectAnnotated | utilities.py:994-996 | the loop collects the annotated nodes |
| Utilities.AnnotateInternalNodes | utilities.py:969-1001 | each cluster maps to the nodes whose leaves all lie in its leaf group, and the leaves in clusters are exactly the union of the leaf groups |
| Utilities.Autovivify.GetItem | utilities.py:122-127 | a present key returns its value and changes nothing; a missing key stores and returns a fresh empty child |
| Utilities.Autovivify.constructor | utilities.py:118 | a new object has no children |
| UpdateRefpkg.FirstSuffix | treesapp/update_refpkg.py:116 | the earliest position from which the rest of the name is `\|refpkg\|digits_digits`, or none when there is no such position |
| UpdateRefpkg.StripAssignmentChanges | treesapp/update_refpkg.py:116 | a name is left unchanged exactly when no suffix of it (before a final newline) is an assignment tag |
| UpdateRefpkg.StripAssignment | treesapp/update_refpkg.py:116 | `re.sub` of the `|refpkg|n_m` suffix at the end of a name; `StripAssignmentChanges` proves when the name changes |
| UpdateRefpkg.StripSuffixed | treesapp/update_refpkg.py:116 | a name ending in an assignment tag loses exactly that tag |
| UpdateRefpkg.StripTagged | treesapp/update_refpkg.py:130-137 | a name with `\|refpkg\|a_b` appended for numbers a and b comes back as the bare name |
| UpdateRefpkg.StripAssignmentPattern | treesapp/update_refpkg.py:130-137 | the map's keys are exactly the given names, each mapped to its stripped name |
| UpdateRefpkg.DescriptionAgrees | treesapp/update_refpkg.py:95-102 | where unpacking the split does not raise, the code agrees with the intended rewrite |
| UpdateRefpkg.DescriptionAsWritten | treesapp/update_refpkg.py:95-102 | one description as the code computes it, with the ValueError of unpacking a split without two parts |
| UpdateRefpkg.Description | treesapp/update_refpkg.py:95-102 | one description as the handler evidently means it; `DescriptionSwapped` and `DescriptionKept` prove its two cases |
| UpdateRefpkg.DescriptionSwapped | treesapp/update_refpkg.py:96-98 | "organism \| accession" with both parts non-empty becomes "accession [organism]", without a leading `>` |
| UpdateRefpkg.DescriptionKept | treesapp/update_refpkg.py:99-105 | any other description is kept apart from a leading `>` |
| UpdateRefpkg.ReformatRefSeqDescriptions | treesapp/update_refpkg.py:92-106 | every identifier keeps its place and gets its description rewritten by the intended `Description`; the as-written `DescriptionAsWritten` and its ValueError are under "## Findings" |
| UpdateRefpkg.FirstLineageSpec | treesapp/update_refpkg.py:111-121 | a name is claimed by no lineage exactly when no lineage lists it; otherwise by the first lineage that lists it |
| UpdateRefpkg.FirstLineage | treesapp/update_refpkg.py:110-118 | the first lineage that lists a name; `FirstLineageSpec` proves it |
| UpdateRefpkg.PendingMembers | treesapp/update_refpkg.py:111-121 | the names left unmapped are exactly those whose stripped name no lineage lists |
| UpdateRefpkg.PendingEmpty | treesapp/update_refpkg.py:123 | nothing is left exactly when every name's stripped name is listed under some lineage |
| UpdateRefpkg.PopListed | treesapp/update_refpkg.py:113-121 | one lineage's pass removes the listed names from the pending list, keeping the others in order, and maps each removed name to the lineage |
| UpdateRefpkg.AssignedMembers | treesapp/update_refpkg.py:117-118 | after a pass, a name is mapped exactly when it was before or it was pending and is listed, and a newly mapped name gets the pass's lineage |
| UpdateRefpkg.MapClassifiedSeqs | treesapp/update_refpkg.py:109-127 | the names left are those no lineage claims; the process exits with 5 exactly when some are left, and otherwise every name is mapped to the first lineage that lists it |
| UpdateRefpkg.WriteDictToTable | treesapp/update_refpkg.py:70-89 | the text is the table of the items, or exit 5 |
| UpdateRefpkg.TableRowsExit | treesapp/update_refpkg.py:78-80 | a value that is neither a string nor a list stops the process with code 5 |
| UpdateRefpkg.TableRowsOk | treesapp/update_refpkg.py:72-77 | otherwise there is one row per item, in order, each the joined key and value |
| UpdateRefpkg.RowRoundTrip | treesapp/update_refpkg.py:74-77 | a row splits back, on the separator, into the key and its values when none of them holds the separator |
| RefData.CreateNewFasta | create_treesapp_ref_data.py:359-389 | no records exits with code 5; otherwise the text holds, in increasing key order, a header line and a sequence line per record |
| RefData.FastaLines | create_treesapp_ref_data.py:370-378 | two lines per record |
| RefData.FastaLinesAt | create_treesapp_ref_data.py:377 | the lines of the k-th record are `>` plus its short id and its sequence as written |
| RefData.FastaTextLines | create_treesapp_ref_data.py:377 | the text splits on newlines into those lines and a final empty string |
| RefData.WrittenGaps | create_treesapp_ref_data.py:372-376 | without dashes no `-` or `.` is written; with dashes the sequence is written unchanged |
| RefData.ReadUcLines | create_treesapp_ref_data.py:392-418 | the method's result is the fold of the parsed lines |
| RefData.ParseUcLine | create_treesapp_ref_data.py:407 | one line split on tabs into ten fields, or the ValueError of unpacking any other number |
| RefData.ReadUc | create_treesapp_ref_data.py:392-418 | what `read_uc` returns for the lines, or the exception it raises; `ReadUcClusters` proves which clusters and members it holds |
| RefData.ReadUcClusters | create_treesapp_ref_data.py:404-417 | the cluster keys are exactly the `>`-headers of the `S` lines, and every member comes from an `H` line with identity 100 and cigar `=` naming that representative |
| RefData.ClusterRecordIgnored | create_treesapp_ref_data.py:408 | a `C` line changes nothing |
| RefData.MalformedLineRaises | create_treesapp_ref_data.py:407 | a line that does not have ten tab-separated fields raises ValueError |
| RefData.MissingRepresentativeRaises | create_treesapp_ref_data.py:415-416 | a full-identity hit to a representative with no earlier `S` line raises KeyError |
| RefData.ReformatStringClean | create_treesapp_ref_data.py:462-467 | the inner reformatting gives at most 110 characters, without brackets, whitespace, `;` or `,` |
| RefData.ReformatStringKeeps | create_treesapp_ref_data.py:462-467 | a short clean string is kept |
| RefData.ReformatStringIdempotent | create_treesapp_ref_data.py:462-467 | reformatting twice equals reformatting once |
| RefData.ReformatHeaders | create_treesapp_ref_data.py:454-471 | the method builds the swap map |
| RefData.SwappersKeys | create_treesapp_ref_data.py:469-470 | the keys are exactly the reformatted old headers |
| RefData.SwappersLast | create_treesapp_ref_data.py:469-470 | each old header's key maps to the reformatted new header of its last pair |
| RefData.Reverse | create_treesapp_ref_data.py:895 | the reversal puts the i-th element in place n-1-i |
| RefData.ReverseComplement | create_treesapp_ref_data.py:879-896 | the result is the reversed list of complements |
| RefData.Complement | create_treesapp_ref_data.py:882-892 | the characters the loop appends for one input character: the complement of a base of either case, `.` and `-` themselves, nothing otherwise; `ComplementShape` proves at most one canonical character |
| RefData.ReverseComplementAlphabet | create_treesapp_ref_data.py:879-896 | the result uses only upper-case A, C, G, T, `.` and `-`; it is no longer than the input, and just as long exactly when every character is recognised |
| RefData.ReverseComplementTwice | create_treesapp_ref_data.py:879-896 | on canonical input the reverse complement is its own inverse |
| PlacementTrainer.MinSamples | treesapp/placement_trainer.py:125 | the minimum is a lower bound of the list lengths that some rank reaches |
| PlacementTrainer.PopMultiset | treesapp/placement_trainer.py:134 | popping index j removes exactly that element |
| PlacementTrainer.Index | treesapp/placement_trainer.py:134 | the random index is in range |
| PlacementTrainer.PickShape | treesapp/placement_trainer.py:127-135 | a rank keeps exactly the minimum number of its values, drawn without replacement; a rank already at the minimum keeps its sorted list |
| PlacementTrainer.DrawSamples | treesapp/placement_trainer.py:132-135 | the loop draws m values and consumes m random numbers |
| PlacementTrainer.RarefyRankDistances | treesapp/placement_trainer.py:114-136 | the method's result is the specified rarefaction |
| PlacementTrainer.Rarefy | treesapp/placement_trainer.py:114-136 | what `rarefy_rank_distances` returns; `RarefyProperties` and `RarefyShape` prove its failure case and output shape |
| PlacementTrainer.RarefyProperties | treesapp/placement_trainer.py:114-136 | rarefaction fails (the `min` of no lengths) exactly when there are no ranks; otherwise every rank keeps its name and the same number of values, a sub-multiset of its own, and some rank keeps all of them |
| PlacementTrainer.RarefyShape | treesapp/placement_trainer.py:126-135 | every rank gets the minimum number of values from its own list, and a rank at the minimum gets its sorted list |
| PlacementTrainer.CompleteRegression | treesapp/placement_trainer.py:164-199 | nothing is returned exactly when there are no ranks or some rank has three or fewer values or none left after culling; otherwise the result is the rarefaction of the culled distances |
| PlacementTrainer.RarefiedNeverEmpty | treesapp/placement_trainer.py:192-197 | after a successful culling no rarefied rank is empty, so the guard after rarefaction never fires |
| UpdateRefpkg.DescriptionAsWrittenRaises | treesapp/update_refpkg.py:95-102 | the description "abc" makes the code as written raise ValueError, while the intended rewrite keeps it |

## Left out

RAxML (`raxmlParsimony.c`):

- Threads: the pthreads barrier and the reduction buffer are left out. The model is single-threaded, which gives the same scores.
- Randomness: `rand`, `randum` and `randomInt` become oracles, given as sequences of draws. `makePermutation` takes the draws `k` as a parameter, and `makeRandomTree` takes the edge choices.
- Unsigned arithmetic: scores and weights are `nat`. The 32-bit wrap of `unsigned int` sums is not modelled; RAxML itself asserts `INT_MAX - best >= 1000` before it adds a tip.
- Fuel: every recursion over the tree carries a `fuel` bound, and a method returns `ok == false` when the bound runs out or a link is NULL. That a tree of `mxtips` tips never exhausts `mxtips` fuel is not proved, because the model has no acyclicity theory.
- `computeTraversalInfoParsimony` and `restoreTreeParsimony` contain `while(!p->x)` loops. They are modelled as `while` loops bounded by the fuel, which report failure when the bound runs out.
- `makeParsimonyTreeIncomplete` and `makeParsimonyTreeThorough` are not modelled. They repeat the steps of `makeParsimonyTree` for a partial start tree and handle the file output and `exit(0)`.
- `switchTipEntries` is not modelled, because nothing in the file calls it.
- `hookupDefault`, `getxnode` and `isTip` are defined elsewhere. They are modelled as the two `back` writes, moving the cycle's `x` flag, and `n <= mxtips`.
- `fixModelIndices`, `bitVectorSecondary`, `initTL`/`saveTL`/`restoreTL`, `Tree2String`, `printBothOpen` and `myfopen` are defined elsewhere. Partitions are given. The secondary-structure table is the tree's field `bitVectorSecondary`, whose contents are not modelled: the kernels map tip codes through it, and the site filter rejects a secondary-structure code whose entry is 0, as RAxML's assertion at raxmlParsimony.c:1111 does. The rest is left out.
- ParsimonyEval.EvaluateParsimonyIterative: the rows of vertices that the traversal skips, because they already hold their flag, are used as they stand. That a held flag means a row is the Fitch vector of its subtree is not kept as an invariant of the tree, so the score is proved against the rows in place, with every row replayed in this call proved a Fitch step of its children's rows.
- ParsimonyDrivers.EvaluateParsimony: as for ParsimonyEval.EvaluateParsimonyIterative, the rows of vertices that the traversal skips because they already hold their flag are used as they stand.
- ParsimonyTopology.ScoreAt: as for ParsimonyEval.EvaluateParsimonyIterative, the rows of vertices that the traversal skips because they already hold their flag are used as they stand.
- ParsimonyTopology.InsertAndScore: as for ParsimonyEval.EvaluateParsimonyIterative, the rows of vertices that the traversal skips because they already hold their flag are used as they stand.
- ParsimonyDrivers.NewviewParsimony: as for ParsimonyEval.EvaluateParsimonyIterative, the rows of vertices that the traversal skips because they already hold their flag are used as they stand.
- ParsimonyDrivers.InitravParsimonyNormal: as for ParsimonyEval.EvaluateParsimonyIterative, the rows of vertices that the traversal skips because they already hold their flag are used as they stand.
- ParsimonyDrivers.InitravDISTParsimony: as for ParsimonyEval.EvaluateParsimonyIterative, the rows of vertices that the traversal skips because they already hold their flag are used as they stand.
- ParsimonyDrivers.InitravParsimony: as for ParsimonyEval.EvaluateParsimonyIterative, the rows of vertices that the traversal skips because they already hold their flag are used as they stand.
- ParsimonyEval.NewviewPartition: runs on the corrected protein table, where threonine is the single bit 65536. The table as written (65535) is modelled only in ParsimonyKernels.ThreonineOverlapsAlanineAsWritten, so on a protein site with A and T the engine charges the one change the code as written does not.
- ParsimonyEval.EvaluatePartition: scores protein data with the corrected threonine bit 65536, like NewviewPartition.
- ParsimonyBuild.AddTaxon: that q ends up inserted at the kept edge is stated only when the search starts `Away` from q, the condition under which the trial insertions are proved to give the links back. That this condition holds for every tree grown by stepwise addition is not proved, because the model has no acyclicity theory.
- ParsimonyBuild.Settle: the insertion and the flags are stated; that the two ends' rows are the Fitch vectors of their subtrees carries the same gap as ParsimonyEval.EvaluateParsimonyIterative (rows of vertices the traversal skips are used as they stand).
- ParsimonyDrivers.InitravChildren: that the child walked first is still current after the second walk (true when the two subtrees are disjoint) is not stated; ParsimonyDrivers.InitravParsimonyNormal states the result for p's whole subtree.
- ParsimonyBuild.PlaceNewTip: which edges the new node is tried in is not stated; the contract gives the trial log's effect on the best score and move, and that every trial moves the new node.
- ParsimonyBuild.StepwiseAddition: that every taxon of the permutation ends up attached to the tree is not proved; the contract states the counters `ntips` and `nextnode`.
- ParsimonyBuild.GrowTree: that every taxon of the permutation ends up attached to the tree is not proved; the contract states the counters `ntips` and `nextnode`.
- ParsimonyBuild.MakeParsimonyTreeRapid: that every taxon of the permutation ends up attached to the tree is not proved; the contract states the counters `ntips` and `nextnode`.
- ParsimonyBuild.AddRandomTaxon: that the new taxon ends up attached to the picked branch is not proved; the contract states the counters `ntips` and `nextnode` and the new inner record.
- ParsimonyBuild.RandomAddition: that every taxon of the permutation ends up attached to the tree is not proved; the contract states the counters `ntips` and `nextnode`.
- ParsimonyBuild.MakeRandomTree: that every taxon of the permutation ends up attached to the tree is not proved; the contract states the counters `ntips` and `nextnode`.
- ParsimonySearch.AddTraverseParsimony: each trial's score is the insertion score at the moment `testInsertParsimony` takes it, which that method's contract states; this contract gives the log's effect on the best score and move but not which edges the log visits.
- ParsimonySearch.PruneAndSearch: each trial's score is the insertion score at the moment `testInsertParsimony` takes it, which that method's contract states; this contract gives the log's effect on the best score and move but not which edges the log visits.
- ParsimonySearch.PruneSearchRejoin: each trial's score is the insertion score at the moment `testInsertParsimony` takes it, which that method's contract states; this contract gives the log's effect on the best score and move but not which edges the log visits.
- ParsimonySearch.RearrangeNear: each trial's score is the insertion score at the moment `testInsertParsimony` takes it, which that method's contract states; this contract gives the log's effect on the best score and move but not which edges the log visits.
- ParsimonySearch.RearrangeFar: each trial's score is the insertion score at the moment `testInsertParsimony` takes it, which that method's contract states; this contract gives the log's effect on the best score and move but not which edges the log visits.
- ParsimonySearch.RearrangeParsimony: each trial's score is the insertion score at the moment `testInsertParsimony` takes it, which that method's contract states; this contract gives the log's effect on the best score and move but not which edges the log visits.
- ParsimonyBuild.MakeParsimonyTree: composes the rapid build, the two `initravParsimonyNormal` calls and the search passes after the site filter. The filter (`determineUninformativeSites` with `sortInformativeSites`) and the restore of the saved arrays are proved on their own, not chained into one method with the build. The permutation is taken as a parameter whose first three taxa are distinct. That every taxon of the permutation ends up attached to the tree is not proved; the contract states the counters and the scores.
- The informative-site rule is the code's (`raxmlParsimony.c:1274-1314`): it counts the codes 1..14 of a column and calls the site informative when at least two codes occur and one of them occurs at least twice. So the DNA column {A, A, C, G} is informative; see `ParsimonySetup.AACGIsInformative`.

TreeSAPP (Python):

- Network, subprocess and interactive input are left out: Entrez lookups, external tools, and `input()` in `present_cluster_rep_options`.
- The pygtrie-backed methods of the taxonomic hierarchy are left out, because they depend on a foreign library. So are `clean_lineage_string` and `get_header_format`, because they are built on regular expressions.
- In `screen_filter_taxa`, `re.search` of a term in a lineage is a parameter (`search`).
- The regular expressions that the model does keep are written out. `\s` is ASCII whitespace and `\d` is ASCII digits, and the `re.IGNORECASE` match of `remove_by_truncated_lineages` folds ASCII letters only, not Unicode case.
- Floating point: scores, identities and placement distances are `real`. `float(identity) == 100.0` in `read_uc` is a parameter (`hundred`). `cull_outliers` is a parameter (`cull`), and `regress_ranks` is not modelled (numpy).
- `np.random.randint` in `rarefy_rank_distances` is the oracle `draw`, reduced into range.
- File I/O: every writer returns the text it would write. This covers `write_tax_ids`, `update_build_parameters`, `write_dict_to_table` and `create_new_fasta`. Readers take the file's lines. In `write_dict_to_table`, the exit on a file that cannot be opened is left out.
- Logging output is left out. `sys.exit(n)` and raised exceptions become `Exit(n)` and `Raise(name)` results.
- Python dicts become association lists (keeping insertion order) or maps, and string keys that hold integers become `nat`.
- CreateRefpkg.OrderDictByLineage: the new numbers are written into copies of the records. The code rewrites `short_id` in place on objects that the input dict shares, and that aliasing is not modelled.
- CreateRefpkg.GuaranteeRefSeqs: the output is modelled, but clearing `members` on the input's own cluster objects is not. The `num_swaps` counter is never read and is left out.
- CreateRefpkg.UpdateBuildParameters: takes the new build line as a list of fields. The code builds that line from `strftime` and the float `pfit` values.
- UpdateRefpkg.StripAssignment: the reference package name is matched literally. The source puts it into the pattern without `re.escape` (treesapp/update_refpkg.py:116 and 137), so a name with regular-expression metacharacters matches more there: package `a|b` turns `x|b|1_2` into `x|`, and package `a.b` strips `x|acb|1_2`. The model leaves both names unchanged.
- UpdateRefpkg.StripAssignmentPattern: uses StripAssignment, so the package name is matched literally, as stated there.
- UpdateRefpkg.MapClassifiedSeqs: strips names with StripAssignment, so the package name is matched literally, as stated there.
- RefData.ParseUcLine: `str.strip()` removes the six ASCII whitespace characters only. Python also strips Unicode whitespace such as `\x1c`, `\x85` and `\xa0`.
- UpdateRefpkg.MapClassifiedSeqs: the in-place shrinking of `unmapped_seqs` is returned as the list `left`.
- UpdateRefpkg.Description: an empty description is kept as empty. The source's `[0]` on it would raise IndexError.

## Findings

| source | as written | input that shows it | evidently intended | confidence | as-written member | corrected member |
|---|---|---|---|---|---|---|
| sub_binaries/RAxML-7.1.0/raxmlParsimony.c:66 | threonine's state set is `65535` (all of bits 0..15) | a protein site where one tip shows A and the other T costs no change | `65536`, the single bit 16, like every other residue | not executed | ParsimonyKernels.ThreonineOverlapsAlanineAsWritten | ParsimonyKernels.ProtTipTableDistinct |
| treesapp/update_refpkg.py:95-102 | the two-name unpacking of `split(" \| ")` raises ValueError, and the handler catches only IndexError | the description "abc" | a description without the separator is kept | not executed | UpdateRefpkg.DescriptionAsWrittenRaises | UpdateRefpkg.DescriptionKept |
