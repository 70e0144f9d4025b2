# Orkia: a verified model of its domain logic

Orkia captures who changed what in a Git repository, groups the captured changes into
reviewable units, projects them as stacks of branches, and keeps signed evidence beside
the commits. This project models the pure logic of that system in Dafny and proves what it
promises. Loops and in-place updates of the program are methods with loop invariants, each
proved against a specification function; what the program promises is proved about those
functions for all inputs, all runs or all reachable states.

`dafny verify dfyconfig.toml` checks the whole project.

## What is modelled

- **Token merge** (`Lcs`, `Tokenizer`, `EditScripts`, `ScriptGaps`, `TokenMerge`,
  `MergeText`, `TokenFrames`, `TokenSeams`): the tokenizer, the edit scripts read off a
  longest-common-subsequence table, and the three-way merge of two scripts.
- **Line ranges and trunks** (`LineRanges`, `WalkTies`, `Trunk`, `TrunkLaws`, `TrunkNodes`,
  `KeyedLists`): the line differ behind review atoms, how the differs break ties, and the
  tree of a file with its tombstones.
- **Patches and restacking** (`PatchSearch`, `PatchBinding`, `BindCoverage`, `Weave`,
  `PatchRoundTrip`, `BindRoundTrip`, `StackRoundTrip`, `SharedLines`, `AdjacentPatches`, `StackExamples`,
  `MisplacedPatch`, `Projection`, `Restack`, `RestackTheorems`, `RestackRoundTrip`):
  fragments bound to their neighbouring lines, found again by text search, and folded
  down a stack of commits.
- **Dependency graphs** (`Dag`, `DagSurgery`, `Lists`, `TopologicalOrder`, `KeyedOrders`,
  `StackPullRequests`): layered topological orders, and merging or splitting nodes.
- **Review plans** (`Review`, `ReviewPlans`, `PlanDivision`, `PlanAcceptance`,
  `ReviewProjections`, `Corrections`, `CorrectionUnits`, `CorrectionLaws`): connected components, planning, validation, forge
  reviews, and corrections of a plan.
- **Evidence** (`Digits`, `CanonicalJson`, `JsonReading`, `Ledger`, `LedgerRuns`,
  `SemanticObjects`, `SemanticStore`): canonical JSON and a reader of it, the hash-chained ledger over immutable refs, dependency
  closures, signature quorums and write-once publication.
- **Hook commands** (`ShellQuoting`): the quoting of shell words and the path read back
  from an installed hook.

Assumptions that stand for foreign code are parameters with stated properties: digests are
injective (`Injective`, `Sound`), a signature verifies under the key of its signer, writers
and readers of documents round-trip, identifiers are numbers in the order of their bytes,
and which characters are alphanumeric is a predicate `isWord`.

## Where the code needs a condition

Some obvious claims are false of the code. For each, the project keeps the code as it is,
gives an input on which the claim fails, and proves exactly when it holds.

- A token merge keeps its tokens apart except when one side appends at the end of base and
  the other rewrites that end so that a token of the same class comes to stand there, a
  condition on these two edits (`TokenSeams.MergedAlternatesIff`, `TokenSeams.GlueExample`).
- A patch is applied, without a conflict, at another place than the one it was bound at
  exactly when the bound place lies inside an occurrence that the search visits and exactly
  one place that it considers fits (`PatchSearch.MisplacedIff`,
  `BindRoundTrip.BoundAppliesToOld`, `MisplacedPatch.AppliesInWrongPlace`).
- A comment in `fragment_for_range` (crates/orkia-projection/src/lib.rs:189-191) has aligned
  contexts keep adjacent changes of sibling pull requests from conflicting. Two groups leave
  an old line between them, so that neither touches the other's context, exactly when an
  aligned new line lies between them (`PatchRoundTrip.OldLineBetweenIff`); under this condition
  a stack that covers a file folds to the new text or conflicts
  (`StackRoundTrip.SeparatedStackThenApply`). Without it the fold can succeed with another
  text (`StackExamples.SwappedExample`, `StackExamples.LostLineExample`): any fold that succeeds
  is shorter than the new text by exactly the old lines that two groups take
  (`SharedLines.StackLength`); when none is taken twice, a fragment fits at its turn exactly
  when its neighbours stand around its piece (`Weave.StandsInPlace`); and of two insertions at
  the end of a file the later one comes in front, so the new text is reached exactly when the
  stack lists them against the order of the file or their texts commute
  (`AdjacentPatches.AppendsInReverse`).
- Equal values have equal canonical texts except for the sign of a zero
  (`JsonReading.CanonicalIsInjective`, `JsonReading.ZeroExample`).
- Planning returns a plan that validation refuses exactly when it divides atoms that lead to
  each other through ordering dependencies without being connected by hard ones, as two
  opposite imports do (`PlanAcceptance.PlanAccepted`, `PlanAcceptance.OppositeImportsExample`).
- Merging review units makes a dependency cycle exactly when a chain between two of them
  passes through a unit that is not merged (`CorrectionLaws.MergeKeepsPlan`, `CorrectionLaws.MergeExample`).
- Splitting a unit into overlapping groups is accepted and yields units that are no
  partition (`CorrectionLaws.SplitKeepsPlan`, `CorrectionLaws.OverlapExample`).
- Every pull request of a stack is projected on the commit of its parent, and every root on
  the base commit, exactly when no root comes behind a pull request whose generated branch is
  called like the base branch (`RestackTheorems.PlanOnParentCommits`, `RestackTheorems.CollisionExample`).
- The time-sorted ledger read is refused exactly when some append came earlier, by time,
  actor and identifier, than one before it (`LedgerRuns.LogAcceptedIff`, `LedgerRuns.ClockExample`).
- The path of a hook command reads back exactly when it does not contain the test that the
  hook script begins with (`ShellQuoting.GuardedPathIff`, `ShellQuoting.GuardedExample`).
- `changed_line_ranges` documents its ranges as disjoint lines of the new file; for a file
  that lost all its lines it reports line 1, which does not exist
  (`LineRanges.ChangedLineRanges`).

## Model

| member | source | states |
|---|---|---|
| Lcs.FillTable | crates/orkia-semantic/src/lib.rs:685-695 | every entry of the table is the length of a longest common subsequence of the two suffixes, as `Lcs.Length` defines it |
| Lcs.MatchingAtMostLength | crates/orkia-semantic/src/lib.rs:685-695 | no strictly increasing list of pairs of equal elements is longer than the table entry |
| Lcs.AlignmentIsLongest | crates/orkia-projection/src/lib.rs:275-288 | the greedy walk with its tie-break returns a common subsequence, and no common subsequence is longer |
| Tokenizer.LexicalTokens | crates/orkia-semantic/src/lib.rs:662-682 | the loop returns the maximal runs of word and non-word characters (`Tokens`) |
| Tokenizer.TokensAlternate | crates/orkia-semantic/src/lib.rs:662-682 | the tokens concatenate to the text, are non-empty and of one class each, and neighbours differ in class |
| Tokenizer.AlternatingIsTokens | crates/orkia-semantic/src/lib.rs:662-682 | conversely, every alternating list of tokens is the token list of its own text |
| EditScripts.TokenEdits | crates/orkia-semantic/src/lib.rs:684-734 | the loops over table, positions and open edit return the recursive script `EditScript` |
| EditScripts.EditScriptApplies | crates/orkia-semantic/src/lib.rs:684-734 | the script is ordered with a kept token between any two edits, applying it to base gives side, and it keeps as many tokens as a longest common subsequence has |
| EditScripts.KeptAtMostLength | crates/orkia-semantic/src/lib.rs:684-734 | edits that turn base into side, whatever they are, keep at most a longest common subsequence |
| EditScripts.EditScriptIsMinimal | crates/orkia-semantic/src/lib.rs:684-734 | no list of edits with the same effect keeps more base tokens than the computed one |
| ScriptGaps.EditScriptIsGaps | crates/orkia-semantic/src/lib.rs:684-734 | the script has exactly one edit for each gap of the common subsequence that the greedy walk `Lcs.Alignment` finds, which `WalkTies.AlignmentIsOnly` determines |
| TokenMerge.MergeTokenEdits | crates/orkia-semantic/src/lib.rs:736-794 | for any two scripts the two-pointer loop returns None exactly when some left and some right edit share a start and differ or one starts strictly inside the other, otherwise base with the union of the scripts applied; every slice is in range |
| TokenMerge.ConflictIff | crates/orkia-semantic/src/lib.rs:736-794 | the sides conflict if and only if no list of edits that follow one another, each at a place of its own, holds the edits of both scripts |
| TokenMerge.UnionIsUnion | crates/orkia-semantic/src/lib.rs:736-794 | the merged edit list holds exactly the edits of both sides, a shared edit once, in strictly increasing, non-overlapping order |
| TokenMerge.IncreasingIsUnique | crates/orkia-semantic/src/lib.rs:736-794 | such a list is determined by its members, so there is only one union |
| TokenMerge.UnionIsSymmetric | crates/orkia-semantic/src/lib.rs:736-794 | conflict and union do not depend on which side is called left |
| MergeText.MergeTokenText | crates/orkia-semantic/src/lib.rs:637-653 | with its early returns the whole merge equals the general path on all inputs |
| MergeText.EarlyReturnsAgree | crates/orkia-semantic/src/lib.rs:638-646 | equal sides, or one unchanged side, give on the general path what the early returns give |
| MergeText.MergeIsSymmetric | crates/orkia-semantic/src/lib.rs:637-653 | swapping left and right never changes the result, for any texts |
| TokenFrames.SideFramesEdits | crates/orkia-semantic/src/lib.rs:684-734 | each edit with its kept neighbours is a stretch of the side, so it alternates word and non-word like the side |
| TokenFrames.FramedEditsCompose | crates/orkia-semantic/src/lib.rs:736-794 | edits from two sides applied together keep the tokens alternating behind a kept token |
| TokenSeams.MergedAlternatesIff | crates/orkia-semantic/src/lib.rs:736-794 | the merged token list alternates unless two edits glue: one rewrites a stretch up to the end of base, the other appends there, and either the last token of the first has the class of the first appended one, or the first only deletes, something is left in front of it, and the first deleted token has the other class |
| TokenSeams.MergeKeepsTokens | crates/orkia-semantic/src/lib.rs:637-653 | tokenizing the merged text again gives exactly the merged tokens if and only if the merge does not glue; it never glues unless one side rewrites a range ending at the end of base while the other appends there |
| TokenSeams.GlueExample | crates/orkia-semantic/src/lib.rs:637-653 | the condition is needed: base `x\n`, left `x`, right `x\ny` merge to `xy`, one token where two were merged |
| LineRanges.ChangedLineRanges | crates/orkia-semantic/src/lib.rs:166-233 | for a non-empty new text the ranges lie in 1..lines, are sorted with an uncovered line between any two, cover exactly the lines touched by the gaps of the alignment that `WalkTies.DiffIsOnly` determines, and are empty if and only if the texts are equal; an emptied file is reported at line 1 |
| LineRanges.WalkRanges | crates/orkia-semantic/src/lib.rs:185-232 | the walk over the table, with anchors for pure deletions and the merging of neighbouring ranges, covers exactly the lines touched by the gaps of the alignment |
| LineRanges.DiffIsMatching | crates/orkia-semantic/src/lib.rs:196-215 | the alignment that the walk follows pairs equal lines in order and is as long as the table says |
| WalkTies.OldIsLeast | crates/orkia-semantic/src/lib.rs:203-211 | new lines are consumed first on a tie: of all longest common subsequences that agree with the differ's on the first k pairs, the differ's has the least k-th old line |
| WalkTies.DiffIsOnly | crates/orkia-semantic/src/lib.rs:196-215 | at most one longest common subsequence takes at each pair the least old line that any can go on with and the first new line equal to it from where the search has come to |
| WalkTies.WalkBreaksTies | crates/orkia-semantic/src/lib.rs:196-215 | and the differ's alignment is one that does |
| WalkTies.NewIsLeast | crates/orkia-projection/src/lib.rs:275-288 | the walk behind patches and edit scripts breaks ties the other way: it has the least k-th new line |
| WalkTies.AlignmentIsOnly | crates/orkia-projection/src/lib.rs:275-288 | it is the mirror image of the line differ's, and the only longest common subsequence that breaks ties so |
| WalkTies.SwapExample | crates/orkia-semantic/src/lib.rs:203-232 | for old lines p, q, z and new lines q, p, z the differ keeps p and z, and touches exactly the first and the third line |
| WalkTies.DroppedExample | crates/orkia-semantic/src/lib.rs:216-232 | a line dropped behind the last line is reported at the last line |
| LineRanges.TouchedIffChanged | crates/orkia-semantic/src/lib.rs:166-233 | some line of a non-empty new text is touched exactly when the texts differ |
| LineRanges.UntouchedSurvive | crates/orkia-semantic/src/lib.rs:166-233 | the uncovered lines are a subsequence of the old lines: each is paired, in order, by a longest common subsequence |
| Trunk.ExtractTrunk | crates/orkia-semantic/src/lib.rs:240-357 | the loops with the occurrence counters and the tombstones build the tree `Extracted`; it is alive, keeps the identifier of the earlier tree if there is one, and adds the path to the paths of that tree |
| Trunk.DeleteTrunk | crates/orkia-semantic/src/lib.rs:362-376 | the nested loops mark every branch and leaf deleted and change nothing else of them; a tree that is still required becomes a zombie, any other is deleted |
| Trunk.ValidateTrunk | crates/orkia-model/src/lib.rs:300-326 | validation accepts exactly the trees with a path, distinct branch identifiers, and distinct leaf identifiers within each branch |
| TrunkNodes.IdIs | crates/orkia-semantic/src/lib.rs:256-277 | the identifier of a branch is made of the kind and symbol of its atom and of the number of earlier atoms that have both |
| TrunkNodes.ExtractedIs | crates/orkia-semantic/src/lib.rs:263-356 | every atom has a live branch with its content hash and, for each word in order, a live leaf made of its place and hash, followed only by tombstones of the branch that had the identifier; every other branch of the tree was there before and has died; branches are in the order of their identifiers |
| TrunkLaws.IdsDiffer | crates/orkia-semantic/src/lib.rs:256-274 | the occurrence number gives two atoms of one file different branch identifiers |
| TrunkLaws.LeavesOfBranch | crates/orkia-semantic/src/lib.rs:275-318 | the leaves of a current branch are distinct, alive exactly for the current words, and include every earlier leaf |
| TrunkLaws.ExtractKeeps | crates/orkia-semantic/src/lib.rs:240-357 | extraction keeps the tree valid, loses no path, branch or leaf, and the alive branches and leaves are exactly those of the current atoms; vanished branches stay as tombstones with their source hash |
| TrunkLaws.DeleteKeeps | crates/orkia-semantic/src/lib.rs:362-376 | deletion keeps the tree valid with the same identities and nothing alive |
| TrunkLaws.RunKeeps | crates/orkia-semantic/src/lib.rs:240-376 | over any run of extractions and deletions the trunk identifier is fixed, paths, branches and the leaves of each branch only grow, and the tree stays valid |
| PatchSearch.ApplyPatch | crates/orkia-projection/src/lib.rs:209-242 | the search and its candidate list give the splice at the only candidate or a conflict (`Patched`) |
| PatchSearch.RegionPositions | crates/orkia-projection/src/lib.rs:215-226 | the scan loop lists the visited occurrences with fitting contexts |
| PatchSearch.InsertionPositions | crates/orkia-projection/src/lib.rs:244-260 | for an empty region the candidates are all positions with fitting neighbours, or only 0 without any context |
| PatchSearch.VisitedIff | crates/orkia-projection/src/lib.rs:215-226 | the scan visits exactly the occurrences that do not begin inside a visited one |
| PatchSearch.UnborderedIff | crates/orkia-projection/src/lib.rs:215-226 | a region overlaps itself in no text if and only if no proper beginning of it is also its end |
| PatchSearch.AppliesAtIff | crates/orkia-projection/src/lib.rs:209-242 | the fragment is applied at p if and only if p is the only considered match, and every success is such an application |
| PatchSearch.AppliesIffUnique | crates/orkia-projection/src/lib.rs:209-242 | when occurrences do not overlap, the patch applies if and only if exactly one place has the region between its two contexts, and it is applied there |
| PatchSearch.MisplacedIff | crates/orkia-projection/src/lib.rs:209-242 | a fragment that belongs at p is applied somewhere else if and only if p begins inside a visited occurrence (or, without any neighbour, behind the beginning) and exactly one considered place fits |
| PatchBinding.AlignLines | crates/orkia-projection/src/lib.rs:262-289 | the alignment loop follows the greedy walk over the table |
| PatchBinding.OldRange | crates/orkia-projection/src/lib.rs:162-207 | the old range of a fragment is ordered and lies in the old file, as do its neighbouring lines |
| PatchBinding.SortedKeeps | crates/orkia-projection/src/lib.rs:56 | sorting keeps the ranges of the atoms and orders them by first and then by last line |
| PatchBinding.GroupsHoldAtomLines | crates/orkia-projection/src/lib.rs:46-68 | the groups of a file are apart by a free line and hold exactly the lines from the first to the last line of an atom on the path |
| PatchBinding.BindPatches | crates/orkia-projection/src/lib.rs:35-89 | the loops bind, file by file, one fragment for each group, or fail when a range leaves the file or an atom has no changed file |
| BindCoverage.GroupsHoldIds | crates/orkia-projection/src/lib.rs:46-68 | the groups of a file carry the identifiers of its atoms and no others |
| BindCoverage.BoundIff | crates/orkia-projection/src/lib.rs:35-89 | binding succeeds if and only if every group names at least one line and only lines of its file, and every identifier belongs to an atom on a changed file; every failure is that the input is invalid |
| BindCoverage.BoundCovers | crates/orkia-projection/src/lib.rs:73-86 | every atom is in some fragment, and every identifier in a fragment is that of an atom |
| PatchRoundTrip.GapWalk | crates/orkia-projection/src/lib.rs:162-207 | between two groups of a covered file the old and the new lines are the same, pair by pair |
| PatchRoundTrip.RebuildsNew | crates/orkia-projection/src/lib.rs:162-207 | when no group takes an old line of the one before, replacing each old range by its group's new lines gives exactly the new lines |
| PatchRoundTrip.OldLineBetweenIff | crates/orkia-projection/src/lib.rs:176-187 | what ends at one new line and what begins at another leave an old line between them if and only if a new line between them is aligned, for any matching |
| PatchRoundTrip.GroupedIsSpaced | crates/orkia-projection/src/lib.rs:46-68 | the groups of one pull request that covers a file leave an old line between neighbours |
| PatchRoundTrip.BoundWith | crates/orkia-projection/src/lib.rs:176-207 | a fragment is bound to the old lines between the aligned lines around its group, with the old line in front of them and the one behind them as its contexts, and replaces them by the lines of the group |
| PatchRoundTrip.BoundFitsOldText | crates/orkia-projection/src/lib.rs:162-207 | in the old text every fragment matches, contexts included, where it was bound, and splicing it there replaces exactly its old range by its new lines |
| PatchRoundTrip.NeighboursShareRange | crates/orkia-projection/src/lib.rs:176-195 | two groups are bound to the same old lines if and only if no line in or between them is aligned; their fragments then have the same `before` and neighbours |
| PatchRoundTrip.WeavesOldAndNew | crates/orkia-projection/src/lib.rs:162-207 | when no old line is taken twice, the text between the old ranges of covering groups, with every `before` in place, is the old file, and with every `after` the new file |
| PatchRoundTrip.GapsHostBound | crates/orkia-projection/src/lib.rs:186-206 | with an old line between neighbouring groups the context lines of every fragment stand in the text between the groups, so no other fragment touches them |
| Weave.StandsInPlace | crates/orkia-projection/src/lib.rs:209-242 | whichever other fragments have been applied, the region of a fragment stands at its own piece, splicing there replaces exactly this piece, and it matches there if and only if its two neighbours stand around the piece at this stage |
| Weave.FitsInPlace | crates/orkia-projection/src/lib.rs:209-242 | when the text between the pieces holds the neighbours, a fragment matches, contexts included, at its own piece at every stage |
| Weave.AppliesInAnyOrder | crates/orkia-projection/src/lib.rs:94-103 | fragments searched for one after the other, in any order, are refused at one of them or end with exactly their pieces replaced, when each matches in its place at its turn and the scan reaches it |
| BindRoundTrip.BoundAppliesToOld | crates/orkia-projection/src/lib.rs:35-242 | each fragment that a pull request binds, whatever else changed in the file, applied to the old text conflicts or gives the old text in front, `after`, and the old text behind, unless the search steps over its place and one other place fits; if its region cannot overlap itself, always |
| BindRoundTrip.BindThenReplace | crates/orkia-projection/src/lib.rs:35-89 | if every unaligned new line is in a group and every unaligned old line in an old range, the returned fragments, set into the text that both revisions share, give the old file with every `before` and the new file with every `after` |
| StackRoundTrip.StackThenApply | crates/orkia-projection/src/lib.rs:35-160 | pull requests that together cover a file, with disjoint groups that take no old line twice, have their fragments refused or end with exactly the new text, in whatever order the stack has them, when each fragment matches in its place at its turn and the scan reaches it |
| StackRoundTrip.SharesLineIff | crates/orkia-projection/src/lib.rs:176-187 | of two groups in the order of the file, the second takes an old line of the first if and only if its old range begins in front of the end of the first one's |
| StackRoundTrip.SeparatedStackThenApply | crates/orkia-projection/src/lib.rs:35-160 | with an aligned line between any two groups no old line is taken twice and every fragment matches in its place, so it is enough that the scan reaches the places |
| StackRoundTrip.UnborderedStackThenApply | crates/orkia-projection/src/lib.rs:35-160 | with an aligned line between any two groups, and regions that cannot overlap themselves, a stack that covers a file conflicts or gives exactly the new text |
| SharedLines.FoldKeepsLength | crates/orkia-projection/src/lib.rs:94-103 | wherever the fragments are applied, a fold that succeeds gains exactly what they insert and loses what they replace |
| SharedLines.StackLength | crates/orkia-projection/src/lib.rs:35-160 | a fold of a covering stack that succeeds is shorter than the new text by exactly the old lines that two groups take, and nothing is missing if and only if no line is taken twice |
| SharedLines.SharedLineIsLost | crates/orkia-projection/src/lib.rs:35-160 | a stack in which two groups take the same old line never folds to the new text |
| AdjacentPatches.InsertTwice | crates/orkia-projection/src/lib.rs:209-260 | of two fragments that insert at one place the second is put in front of the first one's text if that begins with the line behind, behind it if that ends with the line in front, is refused if both, and otherwise refused or applied elsewhere |
| AdjacentPatches.AdjacentInsertions | crates/orkia-projection/src/lib.rs:35-260 | the same for a stack of two pull requests that insert at one place of a file, next to what the new file is |
| AdjacentPatches.AppendsInReverse | crates/orkia-projection/src/lib.rs:35-260 | at the end of a file the later fragment comes in front of the earlier one, so a fold that succeeds gives the new text if and only if the stack lists the groups against the order of the file or their texts commute |
| StackExamples.SwappedExample | crates/orkia-projection/src/lib.rs:189-191 | two pull requests that append one line each to `x` have disjoint empty regions and fold without a conflict to the two lines in the other order |
| StackExamples.LostLineExample | crates/orkia-projection/src/lib.rs:189-191 | two pull requests that put a line each in the place of one old line fold without a conflict to a text in which another line is missing |
| StackRoundTrip.BindThenApply | crates/orkia-projection/src/lib.rs:35-103 | binding one pull request that covers a file and applying its fragments to the old text conflicts or gives exactly the new text, when the scan reaches the bound places |
| StackRoundTrip.UnborderedBindThenApply | crates/orkia-projection/src/lib.rs:35-103 | a condition on the fragments alone is enough: no region overlaps itself |
| MisplacedPatch.AppliesInWrongPlace | crates/orkia-projection/src/lib.rs:209-242 | the condition is needed: five blank lines with one replaced bind a fragment that applies to the very text it was bound from, in the wrong place, without a conflict |
| TopologicalOrder.LayeredOrder | crates/orkia-changesets/src/lib.rs:124-157 | the rounds succeed exactly on closed acyclic graphs, with the order `Order`, and otherwise return a conflict |
| Dag.LevelIff | crates/orkia-changesets/src/lib.rs:124-157 | a node is complete after n rounds if and only if no dependency chain from it leaves the graph or has more than n nodes |
| Dag.StuckIff | crates/orkia-changesets/src/lib.rs:145-149 | no node is ready although some remain if and only if the graph is not closed and acyclic |
| Dag.InLayerIff | crates/orkia-changesets/src/lib.rs:132-156 | a node is completed in the n-th round, not earlier, if and only if its longest dependency chain has n nodes |
| TopologicalOrder.OrderIsSorted | crates/orkia-changesets/src/lib.rs:124-157 | the result is a permutation of the nodes sorted by length of the longest dependency chain, then by identifier |
| TopologicalOrder.OrderIsUnique | crates/orkia-changesets/src/lib.rs:122-157 | only one list is a permutation sorted that way, so the order is determined by the graph alone |
| TopologicalOrder.DependenciesFirst | crates/orkia-changesets/src/lib.rs:124-157 | every dependency is listed before what depends on it |
| TopologicalOrder.ListedIsDag | crates/orkia-changesets/src/lib.rs:124-157 | a list that has every node once, each behind its dependencies, exists only for closed acyclic graphs |
| KeyedOrders.OrderedIff | crates/orkia-changesets/src/lib.rs:124-157 | for a list of entries with identifiers and needs, of which the later counts when two have one identifier, the layered order lists every entry that counts once, behind what it needs, and where the rounds get stuck no list does so |
| KeyedLists.CollectLast | crates/orkia-changesets/src/lib.rs:127-130 | collecting into a map keeps, of the entries with one key, the last |
| StackPullRequests.StackPullRequestOrder | crates/orkia-changesets/src/lib.rs:124-157 | the order of a stack is that of its parent graph: it lists every pull request once, behind its parents; a conflict means that no list does so |
| StackPullRequests.ParentGraphIs | crates/orkia-changesets/src/lib.rs:127-142 | in that graph the last entry with an identifier depends on exactly its parents |
| StackPullRequests.ByIdIgnoresOrder | crates/orkia-changesets/src/lib.rs:127-130 | the input order of the pull requests does not matter |
| StackPullRequests.StackPullRequestExecutionOrder | crates/orkia-changesets/src/lib.rs:163-206 | the order is that of the execution graph; of the input, later entries counting, it lists every pull request once, by repository and identifier, behind its parents in the same repository and its explicit dependencies in theirs; a conflict means that no list does so |
| StackPullRequests.PairKeyKeepsOrder | crates/orkia-changesets/src/lib.rs:166-175 | coding a pair of identifiers as one number keeps the order of pairs |
| StackPullRequests.ExecutionOrderIsSafe | crates/orkia-changesets/src/lib.rs:163-206 | in such a list every parent, under the repository of the pull request, and every explicit dependency, under its own, comes first and is itself in the input |
| StackPullRequests.MissingHasNoOrder | crates/orkia-changesets/src/lib.rs:159-206 | when a parent or an explicit dependency is not in the input there is no such list, so the result is a conflict |
| StackPullRequests.ChangesetExecutionOrder | crates/orkia-changesets/src/lib.rs:301-332 | the order of changesets is that of their dependency graph: it lists every changeset once, behind those in its `depends_on`; a conflict means that no list does so |
| StackPullRequests.ValidateStackPullRequests | crates/orkia-changesets/src/lib.rs:98-120 | a missing parent or one of another repository is an integrity error, otherwise a parent graph that is not closed and acyclic is a conflict, otherwise the stack is accepted |
| Projection.BranchInjective | crates/orkia-projection/src/lib.rs:348 | the generated branch names of different pull requests differ |
| Projection.BranchReads | crates/orkia-projection/src/lib.rs:348 | a generated name is `orkia/stack-pr/` and 32 hexadecimal digits that read back to the identifier |
| Projection.PlanMonoRepository | crates/orkia-projection/src/lib.rs:317-363 | the planner's loop returns the steps of the ordered stack, or the first error in that order |
| Projection.PlannedIff | crates/orkia-projection/src/lib.rs:317-343 | planning succeeds if and only if there are a base branch and an order, all explicit dependencies are published and nothing has two parents; no base branch is invalid, no order a conflict |
| Projection.PlanStopsAt | crates/orkia-projection/src/lib.rs:334-347 | the first pull request in the order that cannot be projected decides the error: the policy error for an unpublished dependency, else a conflict for two parents |
| Projection.StackPullRequestProjections | crates/orkia-forge/src/lib.rs:72-137 | the separately written forge planner returns the steps of the order if every pull request has at most one parent, else a conflict |
| Projection.PlannersAgree | crates/orkia-forge/src/lib.rs:72-137 | with no open cross-repository dependency the two planners give the same error or the same list of pull request, branch and base |
| Projection.PlannedOnParents | crates/orkia-projection/src/lib.rs:334-361 | each base is the base branch, or the branch of the single parent, which is listed earlier |
| Restack.FileMap.ApplyPatches | crates/orkia-projection/src/lib.rs:94-103 | the file map becomes what folding the patches gives; on a refusal it keeps the progress up to there |
| Restack.ProgressByPath | crates/orkia-projection/src/lib.rs:94-103 | each path ends with exactly the patches on that path folded over its own text |
| Restack.ProgressStops | crates/orkia-projection/src/lib.rs:94-103 | a fold that is refused stops at the first patch that does not apply, with the patches in front applied and the file of that patch present |
| Restack.CommitStore.ReadFilesAt | crates/orkia-git/src/lib.rs:2202-2236 | reading gives every requested path, a missing file as empty text |
| Restack.CommitStore.CommitFileContents | crates/orkia-git/src/lib.rs:2238-2306 | a commit is appended that overlays the files on its parent; no earlier commit changes |
| Restack.ProjectStackPullRequest | crates/orkia-projection/src/lib.rs:108-126 | one pull request becomes one new commit holding the patched files of its parent, and the branch moves to it, or the store is unchanged; without patches the input is invalid, without the parent it is not found |
| Restack.ProjectFailsIff | crates/orkia-projection/src/lib.rs:108-126 | the projection goes through if and only if there are patches and those on every path fold over its text; otherwise it is invalid without patches and a conflict with them |
| Restack.RestackMonoRepository | crates/orkia-projection/src/lib.rs:132-160 | every materialised commit holds the files that its step demands and earlier commits are a prefix of the store; every step's own branch points to the commit reported for it and no other branch moves, the base branch never unless it is called like a generated one; a failure is that of the first failing step, and exactly the commits and branches of the steps before it stay |
| RestackTheorems.ReportIs | crates/orkia-projection/src/lib.rs:139-159 | the parent commit reported for a step is that of the last earlier step on its parent branch, or else the base commit, and each file of its commit is that of the reported parent with the step's own patches folded over it |
| RestackTheorems.CommitHoldsChain | crates/orkia-projection/src/lib.rs:132-160 | each file of a commit is the base file with the patches of its ancestor chain applied root to leaf |
| RestackTheorems.PlanOnParentCommits | crates/orkia-projection/src/lib.rs:142-153 | every step builds on the commit of its parent, and a root on the base commit, if and only if no root comes behind a step whose generated branch is called like the base branch |
| RestackTheorems.CollisionExample | crates/orkia-projection/src/lib.rs:142-153 | with a base branch called like the branch of one of two independent pull requests, the commit of the other also holds the file that the first creates; with another base branch it does not |
| RestackTheorems.ChainIsAncestry | crates/orkia-projection/src/lib.rs:132-160 | the pull requests under a commit are exactly the pull request of the step and its ancestors |
| RestackTheorems.AmendKeepsPlan | crates/orkia-projection/src/lib.rs:317-363 | changing the patches of one pull request changes no step of the plan |
| RestackTheorems.AmendKeepsNonDescendants | crates/orkia-projection/src/lib.rs:128-160 | under that condition, amending one pull request leaves the files of every pull request that does not descend from it unchanged |
| RestackRoundTrip.BoundOnPath | crates/orkia-projection/src/lib.rs:35-103 | of the fragments that a pull request binds over all changed files, those on one path are exactly the ones bound to its change |
| RestackRoundTrip.RestackedFileIsNew | crates/orkia-projection/src/lib.rs:35-160 | if the pull requests under a commit together cover the change of a file with disjoint groups, take no old line twice, and each fragment matches in its place at its turn and is reached by the scan, then a restack that succeeds leaves the new text in the commit |
| RestackRoundTrip.SeparatedFileIsNew | crates/orkia-projection/src/lib.rs:35-160 | with an aligned line between any two groups and regions that cannot overlap themselves, a restack that succeeds leaves the new text in the commit |
| RestackRoundTrip.RestackedFileIsShorter | crates/orkia-projection/src/lib.rs:35-160 | a restack of a covering chain that succeeds leaves a text that is shorter than the new one by exactly the old lines that two groups take |
| Review.HardComponents | crates/orkia-review/src/lib.rs:243-278 | the search with queue and shrinking set returns exactly the connected components of the hard dependencies on the given atoms, in the order of their least atoms |
| Review.PartIsComponent | crates/orkia-review/src/lib.rs:243-278 | a set of connected atoms that no hard dependency leaves is the whole component |
| PlanDivision.PartIsInseparable | crates/orkia-review/src/lib.rs:243-278 | a component keeps both ends of every hard dependency together, and no set that does so cuts it |
| ReviewPlans.ConfidenceBetween | crates/orkia-review/src/lib.rs:279-288 | the average, after its narrowing cast, lies between the least and the greatest confidence |
| ReviewPlans.Plan | crates/orkia-review/src/lib.rs:40-102 | with the confidence c of the input, the plan is the one unit of all atoms with c if the coverage or c is below its minimum, otherwise one unit for each component, linked by the loop over the dependencies |
| ReviewPlans.ConfidenceIs | crates/orkia-review/src/lib.rs:279-288 | c is the confidence if and only if it is 0 without atoms, 850 without dependencies, and else c times their number is at most the sum of their confidences and less than the next multiple; the narrowing cast loses nothing |
| PlanDivision.PlanIs | crates/orkia-review/src/lib.rs:40-102 | unless everything is one unit, the planned units partition the atoms so that none can be taken apart without cutting a hard dependency and none is cut by one, each with the derived identifier, the confidence c, and exactly the units that a dependency other than a causal one leads to, in the order of identifiers |
| PlanDivision.PlanWithoutDependencies | crates/orkia-review/src/lib.rs:40-102 | without dependencies every distinct atom is a unit of its own with confidence 850 if the coverage suffices and 850 reaches the minimum, else all atoms are one such unit |
| ReviewPlans.LinkUnits | crates/orkia-review/src/lib.rs:63-82 | the loop over the dependencies adds to each unit exactly the units its dependencies lead to |
| ReviewPlans.PlannedDependency | crates/orkia-review/src/lib.rs:63-82 | a planned unit depends on another exactly when a dependency that is not causal leads from one of its atoms to one of the other's |
| ReviewPlans.DerivedAreDistinct | crates/orkia-review/src/lib.rs:289-299 | identifiers digested from non-empty disjoint atom sets are distinct |
| PlanAcceptance.PlanWellFormed | crates/orkia-review/src/lib.rs:40-102 | on both branches the units that planning returns over some atoms partition them, carry derived identifiers, and have closed dependencies without loops |
| ReviewPlans.SortSorts | crates/orkia-review/src/lib.rs:83 | the units of a plan are listed in the order of their identifiers |
| ReviewPlans.ValidatePlan | crates/orkia-model/src/lib.rs:1391-1488 | validation accepts exactly the plans whose units are non-empty, uniquely identified, a partition of the atom manifest if there is one, and closed and acyclic |
| ReviewPlans.PlanAcceptedIff | crates/orkia-model/src/lib.rs:1391-1488 | a well-formed plan over some atoms is accepted if and only if its unit graph has no cycle, each atom is listed once, the coverage is in range, and the paths, if any, are those of the atoms |
| PlanAcceptance.PlannedAcyclicIff | crates/orkia-review/src/lib.rs:63-82 | the planned units have no cycle if and only if any two atoms that lead to each other, along hard dependencies either way and other ordering ones forward, are connected by hard ones |
| PlanAcceptance.PlanAccepted | crates/orkia-review/src/lib.rs:40-102 | validation accepts what planning returns if and only if there are atoms, each once, the coverage is in range, the paths, if any, are those of the atoms, and everything is one unit or no two unconnected atoms lead to each other |
| PlanAcceptance.OppositeImportsExample | crates/orkia-review/src/lib.rs:63-82 | the condition is needed: for two atoms that import each other planning returns a plan that validation refuses |
| ReviewProjections.Projections | crates/orkia-forge/src/lib.rs:6-67 | the rounds over the units, with the search for the parent's review, return the reviews of the ordered unit graph if it is closed, acyclic and each unit has at most one dependency, else a conflict |
| ReviewProjections.ReviewsOnDependencies | crates/orkia-forge/src/lib.rs:6-67 | each review is on the branch of its unit and based on the base branch, or on the branch of its unit's single dependency, which is listed earlier |
| ReviewProjections.UnitBranchReads | crates/orkia-forge/src/lib.rs:50 | a review branch is `orkia/`, the 32 digits of the plan, `/r` and the 32 digits of the unit, which read back to the two identifiers |
| ReviewProjections.UnitBranchInjective | crates/orkia-forge/src/lib.rs:50 | so two units never share a branch |
| ReviewProjections.ValidPlanProjectsIff | crates/orkia-forge/src/lib.rs:6-67 | a plan that validation accepts projects exactly when no unit has two dependencies |
| Corrections.ApplyMerge | crates/orkia-review/src/lib.rs:104-152 | the in-place edit of the unit list gives `MergeSpec` |
| Corrections.ApplySplit | crates/orkia-review/src/lib.rs:153-192 | the in-place edit of the unit list gives `SplitSpec` |
| Corrections.LeastIsLeast | crates/orkia-review/src/lib.rs:130-134 | the merged confidence is the least of the merged units |
| CorrectionUnits.MergeGives | crates/orkia-review/src/lib.rs:104-152 | after a merge there are exactly the merged unit, with the atoms of all, their dependencies on others and the least of their confidences, and the other units, whose dependencies on merged units have become one on the merged unit |
| CorrectionUnits.SplitGives | crates/orkia-review/src/lib.rs:153-192 | after a split there are exactly a part for each group, with the confidence and the dependencies of the unit, and the other units, and what depended on the unit depends on all parts |
| CorrectionUnits.MergeFailsIff | crates/orkia-review/src/lib.rs:109-122 | a merge is invalid exactly with fewer than two units and not found exactly when one of them does not exist |
| CorrectionUnits.SplitFailsIff | crates/orkia-review/src/lib.rs:159-176 | a split is not found exactly when the unit does not exist, and invalid exactly with fewer than two groups, an empty one, or groups that do not have exactly the atoms of the unit |
| DagSurgery.QuotientAcyclicIff | crates/orkia-review/src/lib.rs:104-152 | merging nodes of an acyclic graph keeps it acyclic if and only if no dependency chain between two of them passes through a node outside |
| DagSurgery.BlowUpAcyclic | crates/orkia-review/src/lib.rs:153-192 | replacing a node by several with the same dependencies never makes a cycle |
| CorrectionLaws.MergeIsQuotient | crates/orkia-review/src/lib.rs:114-151 | the unit graph after a merge is the quotient of the unit graph before |
| CorrectionLaws.MergeKeepsPlan | crates/orkia-review/src/lib.rs:104-152 | a merge of two or more known units keeps the partition, derived identifiers and closed dependencies; fewer than two or unknown units are refused; the result is acyclic if and only if no chain between merged units leaves them, which the code does not check |
| CorrectionLaws.MergeExample | crates/orkia-review/src/lib.rs:104-152 | the condition is needed: three units in a chain of dependencies, of which the first and the last are merged, are a valid plan before and have a cycle after |
| CorrectionLaws.SplitIsBlowUp | crates/orkia-review/src/lib.rs:153-192 | the unit graph after a split is the blow-up of the unit graph before, even when groups overlap |
| CorrectionLaws.SplitKeepsPlan | crates/orkia-review/src/lib.rs:153-192 | a split keeps atoms, derived identifiers, closed dependencies and acyclicity; the units are a partition again if and only if the groups are pairwise disjoint, which the code does not check |
| CorrectionLaws.OverlapExample | crates/orkia-review/src/lib.rs:165-176 | disjointness is needed: splitting atoms 1 and 2 into both and the first alone is accepted and gives no partition |
| CanonicalJson.WriteCanonicalJson | crates/orkia-model/src/lib.rs:30-74 | writing appends exactly the text of the value to the output and changes nothing before it |
| CanonicalJson.CanonicalJson | crates/orkia-model/src/lib.rs:22-29 | from an empty output the result is the text of the value |
| CanonicalJson.SortedKeys | crates/orkia-model/src/lib.rs:54-55 | the keys are the keys of the object, each once, in strictly increasing string order |
| CanonicalJson.LessIff | crates/orkia-model/src/lib.rs:54-55 | in that order a string comes before those that it begins, and otherwise the first character that differs decides |
| JsonReading.ValueReads | crates/orkia-model/src/lib.rs:30-74 | a JSON reader that knows nothing of the writer reads the value back from its text and stops where the text ends, whatever follows |
| JsonReading.EscapedReads | crates/orkia-model/src/lib.rs:35-41 | the reader undoes every escape and stops at the closing quote |
| JsonReading.TextFree | crates/orkia-model/src/lib.rs:30-74 | so the text of a value determines the value and where the text ends |
| JsonReading.CanonicalIsInjective | crates/orkia-model/src/lib.rs:18-74 | two values have the same canonical text if and only if they are equal as values and their zeros have the same signs, whatever the insertion order of object keys |
| JsonReading.ZeroExample | crates/orkia-model/src/lib.rs:18-74 | the condition on signs is needed: 0.0 and -0.0 are equal values with different texts |
| Ledger.VerifyChain | crates/orkia-ledger/src/lib.rs:67-103 | verification accepts exactly the logs where each event names the hash of the one before, has the hash of one of its two serializations, and is signed by a known actor over those bytes |
| Ledger.AcceptedIff | crates/orkia-ledger/src/lib.rs:67-103 | a log is accepted if and only if every event names the hash of the one before, the first none, and some serialization of it has its hash and carries a signature that verifies for its actor |
| Ledger.LastHashFixesHistory | crates/orkia-ledger/src/lib.rs:67-103 | two accepted logs with the same last hash contain the same events, whoever signed them |
| Ledger.SortedIsUnique | crates/orkia-git/src/lib.rs:3675-3688 | a list sorted by time, actor, identifier and hash is determined by its events |
| LedgerRuns.GitLedgerStore.Append | crates/orkia-git/src/lib.rs:3623-3647 | an event ref is written once; the same event again changes nothing and a different one is refused |
| LedgerRuns.GitLedgerStore.ReadAll | crates/orkia-git/src/lib.rs:3648-3690 | the read is the sorted list of exactly the stored events, whatever the order of the refs |
| LedgerRuns.Append | crates/orkia-ledger/src/lib.rs:46-65 | an append that succeeds returns an event with the identifier, repository, actor, time and content it was given, the hash of the last event of the read, and the digest and signature of its own document, and stores it under its actor and hash; a different event under that ref is refused |
| LedgerRuns.StoreReadsLog | crates/orkia-git/src/lib.rs:3623-3690 | after any run of appends with new identifiers every event has its own ref and the read is the sorted log |
| LedgerRuns.AppendRun | crates/orkia-ledger/src/lib.rs:46-65 | entries with new identifiers appended one after the other to an empty store all succeed, each with an event that carries exactly the entry and is chained to the last event of the sorted read before it, and the read afterwards holds exactly these events |
| LedgerRuns.RunAndVerify | crates/orkia-ledger/src/lib.rs:46-103 | appended, read back and verified through the store, a run is accepted if and only if each append came later in the order of the read than all before it |
| LedgerRuns.LogAcceptedIff | crates/orkia-ledger/src/lib.rs:46-103 | the read of a run is accepted if and only if each append came later, by time, actor and identifier, than all before it |
| LedgerRuns.ClockExample | crates/orkia-ledger/src/lib.rs:46-103 | the order is needed: two appends under a clock that goes back are refused |
| LedgerRuns.StrictClockAccepted | crates/orkia-ledger/src/lib.rs:46-103 | under a strictly increasing clock the read is the append order and the chain is accepted |
| SemanticObjects.OperationClosure | crates/orkia-git/src/lib.rs:2370-2388 | the worklist succeeds if and only if everything reachable is a readable operation, and then returns exactly what is reachable |
| SemanticObjects.DependsOnIff | crates/orkia-git/src/lib.rs:2370-2388 | an operation leads to exactly the dependencies in the document that is stored under its ref |
| SemanticObjects.ReachedIsLeast | crates/orkia-git/src/lib.rs:2370-2388 | what is reachable lies in every set that holds the roots and is closed under dependencies |
| SemanticStore.RequireSignatureQuorum | crates/orkia-git/src/lib.rs:2397-2418 | the quorum holds exactly when enough distinct actors have a valid signature over the stored bytes |
| SemanticStore.SignersAre | crates/orkia-git/src/lib.rs:2397-2418 | an actor counts exactly when a stored signature document names the subject and the actor and verifies over the subject's bytes |
| SemanticStore.QuorumIff | crates/orkia-git/src/lib.rs:2397-2418 | so the quorum holds if and only if there are that many different actors, each with such a document |
| SemanticStore.GetState | crates/orkia-git/src/lib.rs:3446-3451 | a state reads exactly when its document is valid, its operations are complete and its files exist |
| SemanticStore.ReadableIff | crates/orkia-git/src/lib.rs:3446-3451 | a readable state is a stored state document whose operations are complete and whose files are there |
| SemanticStore.VerifyActiveState | crates/orkia-git/src/lib.rs:2422-2434 | a state is verified exactly when its document, operations and files are readable and it and every operation of its closure have a quorum |
| SemanticStore.VerifiedIff | crates/orkia-git/src/lib.rs:2422-2434 | a verified state is a readable one that, like every operation reachable from it, is signed by enough actors |
| SemanticStore.GitSemanticStore.Put | crates/orkia-git/src/lib.rs:3366-3381 | an object is stored under the identifier of its bytes |
| SemanticStore.GitSemanticStore.SignDocument | crates/orkia-git/src/lib.rs:2472-2484 | signing a stored object adds one signature document, which names the object, the actor, its key and its signature over the stored bytes, and returns the ref of that document; a missing object is an error and nothing changes |
| SemanticStore.GitSemanticStore.PublishSignedRevision | crates/orkia-git/src/lib.rs:2490-2522 | a revision ref that points elsewhere is an integrity error and nothing changes; otherwise a stored object is signed, the ref points to it, and no other ref moves |
| SemanticStore.GitSemanticStore.BindStateUnchecked | crates/orkia-git/src/lib.rs:3337-3363 | a state is bound exactly when it is a readable state for an existing commit; otherwise nothing changes |
| SemanticStore.GitSemanticStore.ActivateState | crates/orkia-git/src/lib.rs:3610-3620 | a state is bound to a commit exactly when it is verified, names that commit, and the commit exists |
| SemanticStore.SignAddsSigner | crates/orkia-git/src/lib.rs:2472-2484 | signing adds the actor to the signers of that object and changes the signers of no other |
| SemanticStore.PublishAgain | crates/orkia-git/src/lib.rs:2479-2522 | publishing again what was published, however the store has grown in between, succeeds and changes nothing |
| SemanticStore.ReplayInRun | crates/orkia-git/src/lib.rs:2479-2522 | so a retry of a publication after any run of put, sign, publish and activate steps changes nothing |
| SemanticStore.VerifiedStays | crates/orkia-git/src/lib.rs:2422-2434 | a state that passed verification still passes after the store has grown |
| SemanticStore.RunKeeps | crates/orkia-git/src/lib.rs:2397-2522 | over any run of put, sign, publish and activate steps no blob, object ref or revision ref changes, verified states stay verified, and every active state is verified for its commit |
| ShellQuoting.ReadWord | crates/orkia-agents/src/lib.rs:1472-1487 | the loop reads one quoted word as the recursive reader does |
| ShellQuoting.QuotedRoundTrip | crates/orkia-agents/src/lib.rs:1348-1350 | `unquoted(quoted(t) + rest)` is (t, rest) if and only if rest does not begin with what reopens the quote |
| ShellQuoting.GuardedPathIff | crates/orkia-agents/src/lib.rs:1468-1487 | through both levels of quoting the path reads back from the hook command if and only if it does not contain `[ -x `; otherwise nothing reads back |
| ShellQuoting.CommandRuns | crates/orkia-agents/src/lib.rs:1339-1350 | an installed command reads, word by word, as a script that tests the executable and then executes the same executable with the arguments and the marker |
| ShellQuoting.GuardedExample | crates/orkia-agents/src/lib.rs:1468-1471 | the condition is needed: a directory name that contains the test hides the path |

## Left out

- LineRanges.ChangedLineRanges: does not model the narrowing of line numbers to 32 bits, because files of 2^32 lines are outside what the differ is for.
- ReviewPlans.Plan: does not model the overflow of the 32-bit sum of confidences, nor titles, source events and the plan identifier, which do not affect the units.
- ReviewPlans.ValidatePlan: does not model the schema version and the hexadecimal format of the checkpoint and policy digest.
- JsonReading.CanonicalIsInjective: takes a floating-point number as its shortest decimal text; the UTF-8 encoding of the text is not modelled.
- CanonicalJson.SortedKeys: orders keys by code point, the order of the code; section 3.2.3 of RFC 8785 orders them by UTF-16 code unit, which differs outside the Basic Multilingual Plane.
- Trunk.ValidateTrunk: does not model the check that identifiers and hashes are non-empty hexadecimal strings.
- StackRoundTrip.StackThenApply: assumes that each fragment matches in its place at its turn and that the scan reaches it, because without that the claim is false (`StackExamples.SwappedExample`, `MisplacedPatch.AppliesInWrongPlace`); for a single fragment both conditions are exact (`Weave.StandsInPlace`, `PatchSearch.MisplacedIff`).
- StackRoundTrip.BindThenApply: assumes that the scan reaches the bound places, because without that the claim is false (`MisplacedPatch.AppliesInWrongPlace`).
- PatchBinding.BindPatches: does not model the document validation at its end, which only checks fields.
- StackPullRequests.ValidateStackPullRequests: does not model the validation of the single documents, which only checks fields.
- LedgerRuns.GitLedgerStore.Append: does not model the migration of the legacy aggregate ref before the write.
- LedgerRuns.GitLedgerStore.ReadAll: does not read the events of the legacy aggregate ref.
- Text is a sequence of characters: positions in patches are character positions instead of byte positions at character boundaries.
- `base_content_hash` of a fragment: recorded by the code and read by nothing that is modelled.
- All document `validate` methods that only check fields.
- The three order functions of the changesets crate repeat one loop over different graphs; it is modelled once, as `TopologicalOrder.LayeredOrder`, and called for each graph.
- Titles, bodies and reasons of reviews, corrections and pull requests, and the revision counter of a corrected plan.
- Git objects, trees and locks: a commit is a map from paths to texts, and a store only grows; non-UTF-8 files, failures of the file system and the hexadecimal check of ledger ref names are not modelled.
- The legacy aggregate ledger ref and its migration, and writers that append to one ledger at the same time.
- Refs that are symbolic or were changed by other programs, except for what `Get` and the ledger store check themselves.
- Parsing of source files into atoms, text merging by Git, rename detection, checkouts, remotes and archives: foreign code; atoms and contents are inputs.
- Signatures, digests and key handling themselves: assumed correct.
- The command line, server, database index, GitHub adapter, file watcher, transcript decoders, hook settings and policy evaluation: input and output, or single-branch checks.
