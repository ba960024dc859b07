# Functional dependency discovery, modelled and proved in Dafny

Desbordante finds the minimal functional dependencies of a table with several engines that reach the same answer by
different routes. This project models those engines, the index structures they run on and some of their smaller
numeric cores, and proves each of them against one shared meaning.

A relation is a list of rows of integers, a vertical is a set of column numbers, and a dependency `X -> A` holds when
any two rows that agree on `X` agree on `A`. `Relations.MinimalFd` adds that `A` is outside `X` and that no proper
subset of `X` determines `A`. `ListsMinimalFds` says that a list has every minimal dependency exactly once and nothing
else. Everything below is stated in these terms.

## What is proved

* **TANE, FDep, FUN, FastFDs and Depminer** each list exactly the minimal dependencies under a condition that is proved
  exact (`ExecuteInternal` of the classes `Tane`, `FDep`, `FUN`, `FastFDs`, `Depminer`). `Engines.EnginesAgree` puts them side
  by side: the lists that do are permutations of each other.
* **Agree sets** decide what FastFDs and Depminer find: a run is right if and only if the agree sets that it generates
  suffice (`SeenFds.ExactWhenSufficient`). The agree-set factory is modelled with all its methods but the one that throws,
  and which agree sets it may generate is stated on the columns (`AgreeSetFactories.MayGenerate`).
* **AID** samples agree sets and inverts the sample. What is sampled, and after which round sampling stops, is stated on the
  rows; every dependency that holds has a registered one inside it, and the list is exact as long as no value of a column
  that is not constant occurs more than twelve times.
* **Minimal hitting sets** are computed in four ways (one vertical at a time, depth first with an ordering that
  is recomputed at every node, level by level, and by inverting a search tree). Each is proved equal to the one definition
  `Transversals.MinimalHitting`.
* **The set trie** behind `VerticalMap` refines a map, and **AID's search tree** refines a set of bitsets; both are heap
  trees updated in place, with recursive footprints or a ghost picture of all nodes.
* **Position list indexes** are canonical partitions, so intersection is commutative and associative down to the
  sequence; the **cache** returns the same index whatever it chose to keep.
* **Apriori** finds exactly the frequent itemsets, on top of a **candidate hash tree** whose counts are the naive ones; what
  it finds when transaction ids collide is stated too.
* **Levenshtein distance** is the least number of edits and a metric, which bounds the **approximate metric verifier** on
  both sides; the **CTANE partition error** is the least number of rows to remove.

Where the code misses what it is for, the condition is proved and an input that shows it is given:

* The default way of finding the maximal classes stops comparing a kept class at the first new class inside it
  (`src/util/agree_set_factory.cpp:582`), so that other new classes can be lost, and agree sets with them. On the four rows
  (1,1), (1,1), (2,2), (3,2) the class of the last two rows is lost, and both FastFDs and Depminer, as configured by default,
  report that the second column determines the first (`Supersets.LosesClass`, `Engines.DefaultsMissAClass`). A pass can lose a
  class if and only if the kept classes can be sent to places of their own before it, each to a new class inside it
  (`Supersets.LostInSomeOrder`), and a run can if and only if one of its passes can (`Supersets.LostInSomeRun`). Whatever
  the two engines list is right if and only if, for every way through the columns, the pairs within the classes that are
  left suffice (`Engines.DefaultsRightOnColumns`). With the other two methods nothing is lost
  (`AgreeSetFactories.MethodsThatSuffice`).
* That way can also keep a class inside another one, whose pairs are those of the larger class anyway
  (`Supersets.ApartAfterPass`, `Supersets.KeepsNested`).
* AID compares a row with one earlier row of each of its values per round, and stops when the sample has grown little. The list
  is right if and only if there are rows and the sample suffices (`AidEngine.Aid.ExecuteInternal`); on a table in which two
  values occur thirteen times it stops after eleven rounds and lists a dependency that does not hold
  (`AidSampling.ThirteenTimesMiss`, `Engines.AidMisses`).
* FDep computes its attribute mask `(2 << n) - 1` in int, which overflows from thirty columns on; the model stops there. The
  run is defined if and only if there are fewer than thirty columns or fewer than two tuples
  (`Fdep.FDep.ExecuteInternal`, `AttributeMasks.MaskFits`, `AttributeMasks.ThirtyColumns`).
* Apriori converts transaction ids to int and marks unvisited leaves with -1. Counts are exact for every tree and order if the
  converted ids of transactions with items differ from all others and from -1; whenever they do not, some order and some item
  give a count that is too small (`CandidateHashTrees.CandidateHashTree.PerformCounting`,
  `MissedCounts.MissedUnlessToldApart`, `MissedCounts.CollidingIds`). Counts are never too large, so that what Apriori
  finds is frequent for any ids (`AprioriMining.Apriori.FindFrequent`).
* TANE with fewer than two rows divides zero by zero and lists nothing: right if and only if there are two rows or no columns
  (`Tane.Tane.ExecuteInternal`, `TaneLevels.SingleRow`).
* FUN without rows lists nothing: right if and only if there are rows or no columns
  (`Fun.FUN.ExecuteInternal`, `Fun.NoRowsNoConstant`).
* AID without rows finds no constant column: every dependency is covered if and only if there are rows or no columns
  (`AidTheory.CoversUnlessNoRows`, `AidTheory.NoRowsNotCovered`).
* Removing an absent key from the set trie can take stored keys inside it along, because the test for an empty node asks
  for a value instead of none (`SetTries.SetTrie.Remove`, `SetTries.RemovalLosesEntry`).

Two other slips do no harm, and the model follows them: `src/util/lattice_level.cpp:57` intersects a vertex with itself,
and `src/algorithms/depminer/depminer.cpp:216` discards an intersection, so that any two sets of equal size in the right order
are joined.

## Modules

* Meaning: `Relations`, `FdLists`, `Verticals`, `Bits`, `Options`
* Partitions: `Partitions`, `PositionListIndexes`, `PliCaches`, `FdG1Strategies`
* Transversals: `Transversals` (the theory), `Corrections` (the step shared by FDep, AID and `CalculateHittingSet`), `HittingSets`
* TANE: `Lattice`, `LatticeLevel`, `TaneTheory` (invariants on values), `TaneLevels`, `Tane`
* FDep: `FdNodes` (nodes as values), `FdCover`, `AttributeMasks`, `FdTree` (the heap tree), `Fdep`
* FUN: `FunTheory`, `Fun`
* Agree sets: `MaxRepresentations`, `Supersets`, `AgreeSetMethods`, `AgreeSetFactories`, `SeenFds`; engines on them: `FastFds`, `Depminer`
* Tries: `SetTrieNodes` (nodes as values), `SetTries` (the heap tree), `VerticalMaps`
* AID: `SearchTreeNodes` (the tree as a value), `SearchTrees` (the heap tree), `AidTheory`, `AidSampling`, `AidEngine`
* Other cores: `CandidateHashTrees`, `MissedCounts`, `AprioriMining`, `Levenshteins`, `MetricVerifiers`, `CtaneErrors`
* Together: `Engines`

The heap structures all follow one pattern: a module of lemmas about nodes as plain values, and a class whose methods
establish the hypotheses of those lemmas. Loops over hash containers take their elements in any order, and sorts leave ties
open, so that a result holds for every order the program may meet.

`dafny verify dfyconfig.toml` checks the whole project.

## Model

| member | source | states |
|---|---|---|
| Tane.Tane.ExecuteInternal | src/algorithms/tane.cpp:70-299 | In exact mode the list gets every minimal dependency with at most `maxLhs` columns on the left exactly once and nothing else if and only if there are at least two rows or no columns; with fewer rows it stays empty |
| TaneTheory.TestKeepsPlus | src/algorithms/tane.cpp:171-219 | What testing all parents of a live vertex leaves in its candidates: exactly the non-constant columns A for which no B in X has X\{A,B} -> B, provided the vertex came out of the join of a finished level |
| TaneTheory.TestFindsMinimal | src/algorithms/tane.cpp:186-216 | For a generated vertex X without a key inside, the test of X\{A} -> A registers A exactly when A is in X and that dependency is minimal |
| TaneTheory.KeyPruningFindsMinimal | src/algorithms/tane.cpp:230-265 | For a key vertex the sibling checks accept an outer column exactly when the vertex is a minimal left-hand side of it |
| TaneTheory.PrunedIsDone | src/algorithms/tane.cpp:227-278 | A key vertex cut down to its own columns and marked invalid, and every other vertex as it is, meets the invariant that later sibling checks and parent intersections rely on |
| TaneTheory.NextLevelComplete | src/util/lattice_level.cpp:25-113 | The join of a finished level loses no column set that is still wanted by a minimal dependency |
| TaneTheory.NothingWantedAbove | src/algorithms/tane.cpp:166-168 | When a level is empty, no minimal dependency is left above it |
| TaneTheory.MinimalFdIsWanted | src/algorithms/tane.cpp:171-219 | The left side of a minimal dependency, with its right side added, survives into the level of its size |
| TaneLevels.ErrorsDecide | src/algorithms/tane.cpp:32-48 | The computed zero-ary, dependency and key errors are at most zero exactly when the constant, the dependency or the key holds; with fewer than two rows the quotient is undefined and no test succeeds |
| TaneLevels.FewRows | src/algorithms/tane.cpp:111-121 | With fewer than two rows the empty result is right exactly when there are no columns |
| TaneLevels.SingleRow | src/algorithms/tane.cpp:32-48 | An input that shows it: the single column of a single row is constant, but the empty result lacks that |
| TaneLevels.FirstLevelRegisters | src/algorithms/tane.cpp:96-152 | Level 1 leaves exactly the minimal dependencies with at most one column on the left in the list |
| TaneLevels.FirstLevelIsDone | src/algorithms/tane.cpp:96-152 | Level 1 satisfies the invariant that the join of the next level starts from |
| TaneLevels.TestsRegister | src/algorithms/tane.cpp:171-219 | Testing one level extends the list from left sides below its arity, keys excepted, to those up to it |
| TaneLevels.KeysRegister | src/algorithms/tane.cpp:225-266 | Key pruning of one level adds exactly the minimal dependencies of its keys |
| TaneLevels.EmptyLevelEnds | src/algorithms/tane.cpp:166-168 | An empty level means that the list is complete up to the limit |
| Tane.Tane.TestVertex | src/algorithms/tane.cpp:171-219 | One vertex: its new candidates and the dependencies it appends, each once; an invalid vertex is left alone |
| Tane.Tane.TestLevel | src/algorithms/tane.cpp:171-219 | All vertices of a level in any order: the candidates as a function of the old level, and the appended dependencies |
| Tane.Tane.CheckSiblings | src/algorithms/tane.cpp:243-257 | True exactly when all siblings exist and still carry the column |
| Tane.Tane.PruneVertex | src/algorithms/tane.cpp:229-266 | Which key dependencies are appended, and how the key and invalid marks change |
| Tane.Tane.PruneLevel | src/algorithms/tane.cpp:225-279 | All keys of a level in any order: new candidates, marks and appended dependencies |
| Tane.Tane.InitializeLevel1 | src/algorithms/tane.cpp:96-152 | A first level with its indexes, candidates and marks, and the dependencies with at most one column on the left |
| Tane.Tane.NextLevel | src/algorithms/tane.cpp:159-219 | One round of the main loop: from one finished level to the next, with everything registered up to its size, or nothing left to find |
| LatticeLevel.GenerateNextLevel | src/util/lattice_level.cpp:25-113 | The next level has exactly the unions of prefix siblings that pass the guards of both loops, with all parents there and, above two columns, a candidate common to all of them; candidates are intersected, the invalid mark is taken over, all parents are recorded; ties in the sort do not matter |
| LatticeLevel.JoinVertices | src/util/lattice_level.cpp:53-107 | One pair: a vertex comes out exactly when every parent is in the level and, when there are more than two, they have a candidate in common |
| LatticeLevel.NextIsComplete | src/util/lattice_level.cpp:41-111 | Stopping at the first vertex without the common prefix skips no pair |
| Lattice.SharePrefixMeans | src/util/lattice_vertex.cpp:13-28 | The prefix test holds exactly for two sets of equal size that differ only in their largest columns, the first one smaller |
| Lattice.ComesFirstTotal | src/util/lattice_vertex.cpp:30-47 | The sort order is total on sets of one size |
| Lattice.ComesFirstTransitive | src/util/lattice_vertex.cpp:30-47 | The sort order is transitive |
| Lattice.BetweenSiblings | src/util/lattice_level.cpp:49-52 | Whatever the sort puts between two prefix siblings is a sibling too |
| Fdep.FDep.ExecuteInternal | src/algorithms/fdep/fdep.cpp:41-64 | The run is defined exactly for fewer than thirty columns or fewer than two tuples, and then the list has every minimal dependency of the tuples exactly once and nothing else, constants with an empty left side included |
| Fdep.FDep.AddViolatedFDs | src/algorithms/fdep/fdep.cpp:76-90 | Below thirty columns, where the mask has a value, a pair of tuples adds to the negative tree exactly what its agree set violates |
| AttributeMasks.MaskFits | src/algorithms/fdep/fdep.cpp:77-78 | The mask expression stays within int exactly below thirty columns |
| AttributeMasks.ThirtyColumns | src/algorithms/fdep/fdep.cpp:77-78 | The smallest width at which it does not |
| AttributeMasks.MaskIsUniverse | src/algorithms/fdep/fdep.cpp:77-78 | Where it has a value, its bits are exactly the attributes and the unused position 0 |
| Fdep.FDep.BuildNegativeCover | src/algorithms/fdep/fdep.cpp:66-74 | Where it is defined, the filtered negative tree keeps, for each right side, exactly the inclusion-maximal violated left sides of all pairs |
| Fdep.FDep.SpecializePositiveCover | src/algorithms/fdep/fdep.cpp:109-126 | One violated left side: the positive tree goes from the minimal hitting sets of a family to those of the family with one more set; the while loop ends because the stored generalizations decrease |
| Fdep.FDep.CalculatePositiveCover | src/algorithms/fdep/fdep.cpp:92-107 | The walk over the negative tree processes every stored violation |
| Fdep.CoverIsMinimalFds | src/algorithms/fdep/fdep.cpp:92-126 | The minimal hitting sets of the violated family are exactly the minimal left-hand sides |
| Fdep.ViolationIsDifference | src/algorithms/fdep/fdep.cpp:76-90 | A violated left side of a pair is the complement of a difference set of the relation |
| Fdep.ViolatedFamily | src/algorithms/fdep/fdep.cpp:66-90 | Filtering the violations changes no minimal hitting set |
| Fdep.ListedCoverIsMinimalFds | src/algorithms/fdep/fd_tree_element.cpp:245-275 | The list read off the positive tree has the minimal dependencies, each once |
| FdTree.FdTreeElement.ContainsGeneralization | src/algorithms/fdep/fd_tree_element.cpp:41-62 | True exactly when a stored left side lies inside the given one, for the tree as a set of dependencies |
| FdTree.FdTreeElement.GetGeneralizationAndDelete | src/algorithms/fdep/fd_tree_element.cpp:64-95 | Finds a stored left side inside the given one if there is one, deletes exactly it and returns it; otherwise nothing changes |
| FdTree.FdTreeElement.GetSpecialization | src/algorithms/fdep/fd_tree_element.cpp:97-139 | True exactly when a stored left side contains the given one |
| FdTree.FdTreeElement.AddFunctionalDependency | src/algorithms/fdep/fd_tree_element.cpp:151-166 | The stored set grows by exactly the one dependency |
| FdTree.FdTreeElement.AddMostGeneralDependencies | src/algorithms/fdep/fd_tree_element.cpp:141-149 | Stores exactly the dependencies with an empty left side for every column |
| FdTree.FdTreeElement.FilterSpecializations | src/algorithms/fdep/fd_tree_element.cpp:168-195 | Keeps exactly the stored dependencies whose left side is maximal for its right side |
| FdTree.FdTreeElement.FillFdCollection | src/algorithms/fdep/fd_tree_element.cpp:245-275 | Lists every stored dependency exactly once, with attribute numbers turned into column indices |
| FdCover.RemoveStep | src/algorithms/fdep/fdep.cpp:109-126 | Taking a generalization out keeps the correction of the cover under way, with its extensions still to be looked at |
| FdCover.FinishStep | src/algorithms/fdep/fdep.cpp:109-126 | When all extensions have been looked at, the cover meets the new set as well |
| FdCover.MostGeneralCover | src/algorithms/fdep/fdep.cpp:48-50 | The most general dependencies are the cover of no violations |
| FdNodes.FilteredIsMaximal | src/algorithms/fdep/fd_tree_element.cpp:178-195 | Inserting in reverse order of inclusion and skipping specialized ones leaves the maximal ones |
| FdCover.FilteredFamily | src/algorithms/fdep/fd_tree_element.cpp:168-195 | The filtered family and the whole one contain each other and so have the same minimal hitting sets |
| HittingSets.CalculateHittingSet | src/model/relational_schema.cpp:61-112 | Without pruning exactly the minimal hitting sets of the verticals; for a non-empty list and a pruning predicate that supersets inherit, exactly the minimal hitting sets that are not pruned |
| HittingSets.Correct | src/model/relational_schema.cpp:81-107 | One vertical: removing the members that miss it and adding unpruned corrections turns the cover of a family into the cover of the larger one |
| HittingSets.AddCorrection | src/model/relational_schema.cpp:89-104 | One correction: afterwards the correction of the cover is under way with that one done, whether it was added, covered already or pruned |
| HittingSets.AddVertical | src/model/relational_schema.cpp:73-110 | A vertical that contains a consolidated one changes no minimal hitting set and is skipped |
| Transversals.CorrectionStep | src/model/relational_schema.cpp:81-107 | Replacing the members that miss a set by their surviving one-element extensions gives exactly the minimal unpruned hitting sets of the larger family |
| Transversals.CorrectingRemove | src/model/relational_schema.cpp:83-88 | Removing a member leaves its corrections pending |
| Transversals.CorrectingAdd | src/model/relational_schema.cpp:93-103 | Looking at one pending correction keeps the correction of the cover under way, with that correction done |
| Transversals.PrivateMember | src/model/relational_schema.cpp:61-112 | Each element of a minimal hitting set has a member of the family that only it meets |
| Transversals.MinimalHittingInside | src/model/relational_schema.cpp:61-112 | Every hitting set contains a minimal one |
| Transversals.MinimalFdIsMinimalHitting | src/algorithms/fastfds.cpp:33-99 | The minimal left-hand sides of a column are exactly the minimal hitting sets of its difference sets |
| Transversals.ListedDifferencesDecide | src/algorithms/fastfds.cpp:238-270 | For a column that is not constant, any sub-family in which every difference set contains a listed one, with the difference set of the added empty agree set allowed, has the minimal left-hand sides as its minimal hitting sets |
| FastFds.FastFDs.ExecuteInternal | src/algorithms/fastfds.cpp:33-99 | Generates agree sets with the factory, some that the methods may give, and lists exactly what they let appear as minimal dependencies with at most `maxLhs` columns on the left, each once; these are the minimal dependencies when the agree sets suffice |
| FastFds.FastFDs.FindCovers | src/algorithms/fastfds.cpp:108-145 | From any node of the search the list grows by exactly the minimal covers of limited size below that node, each once, although the ordering is recomputed at every node |
| FastFds.FastFDs.GetNextOrdering | src/algorithms/fastfds.cpp:209-233 | The columns that still cover something, in the order of the comparison, without duplicates |
| FastFds.FastFDs.GetInitOrdering | src/algorithms/fastfds.cpp:193-207 | The columns other than the right side in the order of the comparison |
| FastFds.OrderingComp | src/algorithms/fastfds.cpp:172-191 | The column in more of the sets comes first, and of two in equally many the smaller one |
| FdLists.CoverageCounts | src/algorithms/fastfds.cpp:172-182 | What the loop counts is the number of sets that contain the column |
| FastFds.FastFDs.CoverMinimal | src/algorithms/fastfds.cpp:160-170 | True exactly when no column can be dropped from the cover |
| FastFds.FastFDs.IsCover | src/algorithms/fastfds.cpp:147-158 | True exactly when the set meets every difference set |
| FastFds.FastFDs.GetDiffSetsMod | src/algorithms/fastfds.cpp:238-270 | The inclusion-minimal difference sets that contain the column, without it, in sorted order |
| FastFds.FastFDs.GenDiffSets | src/algorithms/fastfds.cpp:272-311 | The sorted complements of agree sets that the factory may give |
| FastFds.AllBranches | src/algorithms/fastfds.cpp:123-144 | The minimal covers below a node are the disjoint union of those of its branches |
| FastFds.CoversAreSeenFds | src/algorithms/fastfds.cpp:84-91 | The covers of the difference sets modulo a column are exactly the left-hand sides that the agree sets let appear |
| SeenFds.ExactWhenSufficient | src/algorithms/fastfds.cpp:84-91 | A run without a limit lists the minimal dependencies if and only if every agree set lies, for each column that it lacks, inside one of the given agree sets that lacks the column |
| SeenFds.SeenWhenSufficient | src/algorithms/fastfds.cpp:238-270 | Given such agree sets, what appears is exactly what is minimal |
| SeenFds.FalselySeen | src/algorithms/fastfds.cpp:238-270 | An agree set inside none of the given ones lets a dependency appear that does not hold |
| Verticals.LessMeans | src/model/vertical.cpp:157-164 | One set comes before another exactly when the lowest column in which they differ is in the other |
| Verticals.SubsetIsLess | src/model/vertical.cpp:157-164 | A proper subset comes before its superset |
| Verticals.LessIsTotal | src/model/vertical.cpp:157-164 | Two different sets are comparable one way only |
| Verticals.LessIsTransitive | src/model/vertical.cpp:157-164 | The order is transitive |
| Fun.FUN.ExecuteInternal | src/algorithms/fun.cpp:148-199 | The list has every minimal dependency exactly once and nothing else if and only if there are rows or no columns |
| Fun.NoRowsNoConstant | src/algorithms/fun.cpp:148-199 | An input that shows where the run fails: one column and no rows |
| Fun.FUN.DisplayFD | src/algorithms/fun.cpp:29-48 | After a level exactly the minimal dependencies with left sides up to its size are stored |
| Fun.ShowDecides | src/algorithms/fun.cpp:37-46 | A column of the closure that is outside the quasiclosure and not yet determined by a stored subset is exactly one with a minimal dependency |
| Fun.FUN.PurePrune | src/algorithms/fun.cpp:50-64 | Drops exactly the candidates with an immediate subset of equal count in the previous level |
| Fun.PruneKeepsUseful | src/algorithms/fun.cpp:50-64 | No candidate that a minimal left-hand side needs is pruned |
| Fun.FUN.ComputeClosure | src/algorithms/fun.cpp:66-78 | Each candidate ends with exactly the columns that it determines, the empty one with none; keys, which the loop skips, have them already |
| Fun.ClosureIs | src/algorithms/fun.cpp:66-78 | That set has exactly the determined columns that a minimal dependency can need |
| Fun.FUN.ComputeQuasiClosure | src/algorithms/fun.cpp:80-92 | Each candidate gets exactly its own columns and the closures of its subsets in the level below, which are columns determined by proper subsets; keys get all columns as closure |
| Fun.FUN.GenerateCandidate | src/algorithms/fun.cpp:131-146 | Exactly the extensions of the non-key candidates of the level by one non-key column, each once and counted |
| Fun.FUN.Count | src/algorithms/fun.cpp:94-114 | The number of classes of rows that agree on the columns |
| Fun.FUN.FastCount | src/algorithms/fun.cpp:116-129 | The count found in a level, or the largest one of an immediate subset that was kept |
| FunTheory.MinimalLhsIsUseful | src/algorithms/fun.cpp:166-190 | A minimal left-hand side is a free set without a key inside, so it survives |
| FunTheory.CardinalityDecidesFd | src/algorithms/fun.cpp:66-78 | Adding a column leaves the count unchanged exactly when the dependency holds |
| FunTheory.CardinalityDecidesKey | src/algorithms/fun.cpp:25-27 | The count equals the number of rows exactly for keys |
| SetTries.SetTrie.Associate | src/util/vertical_map.cpp:10-19 | The trie as a map is updated at one key, and the old value is returned |
| SetTries.SetTrie.Get | src/util/vertical_map.cpp:21-32 | The trie as a map is looked up |
| SetTries.SetTrie.Remove | src/util/vertical_map.cpp:34-51 | The value of the key is returned and exactly that key is gone if and only if `LosesLeaf` is false, that is, unless the walk runs past a leaf that is then dropped as empty; stored keys never lose a leaf, and whatever else is lost lies inside the key |
| SetTries.RemovalLosesEntry | src/util/vertical_map.cpp:34-58 | A run that loses an entry: {0} is stored in an empty trie, the absent key {0, 1} is removed, and {0} is gone |
| SetTries.SetTrie.TraverseEntries | src/util/vertical_map.cpp:91-106 | Visits every entry once with its full key |
| SetTries.SetTrie.CollectSubsetKeys | src/util/vertical_map.cpp:108-127 | Visits exactly the keys inside the bound, each once, until the collector stops |
| SetTries.SetTrie.CollectSupersetKeys | src/util/vertical_map.cpp:129-169 | Visits exactly the keys that contain the bound, each once, until the collector stops |
| SetTries.SetTrie.CollectRestrictedSupersetKeys | src/util/vertical_map.cpp:171-219 | Visits exactly the keys that contain the bound and avoid the blacklist, each once |
| VerticalMaps.VerticalMap.Put | src/util/vertical_map.cpp:486-492 | Map update; the size is the number of keys |
| VerticalMaps.VerticalMap.Get | src/util/vertical_map.cpp:494-504 | Map lookup |
| VerticalMaps.VerticalMap.Remove | src/util/vertical_map.cpp:395-400 | Deletes the key; the map stays consistent with its size if and only if no leaf is lost, as for every stored key; whatever else is lost lies inside the key |
| VerticalMaps.VerticalMap.GetSubsetEntries | src/util/vertical_map.cpp:233-244 | Exactly the entries with keys inside the set, each once |
| VerticalMaps.VerticalMap.GetSubsetKeys | src/util/vertical_map.cpp:221-231 | Exactly the keys inside the set, each once |
| VerticalMaps.VerticalMap.GetAnySubsetEntry | src/util/vertical_map.cpp:259-276 | An entry inside the set that fulfils the condition, or none when there is none |
| VerticalMaps.VerticalMap.GetSupersetEntries | src/util/vertical_map.cpp:278-289 | Exactly the entries with keys around the set, each once |
| VerticalMaps.VerticalMap.GetAnySupersetEntry | src/util/vertical_map.cpp:304-321 | An entry around the set that fulfils the condition, or none when there is none |
| VerticalMaps.VerticalMap.GetRestrictedSupersetEntries | src/util/vertical_map.cpp:323-340 | Exactly the entries around the set that avoid the exclusion, each once |
| VerticalMaps.VerticalMap.RemoveSupersetEntries | src/util/vertical_map.cpp:342-349 | Removes exactly the entries around the set |
| VerticalMaps.VerticalMap.RemoveSubsetEntries | src/util/vertical_map.cpp:351-358 | Removes exactly the entries inside the set |
| SearchTrees.SearchTree.Add | src/algorithms/aidfd/search_tree.cpp:54-89 | The set of stored bitsets grows by one and the result tells whether it was new; the tree invariants, parent links, unions and intersections hold again and the counter is the size of the set |
| SearchTrees.SearchTree.Remove | src/algorithms/aidfd/search_tree.cpp:91-105 | The set loses the bitset and the result tells whether it was there; all invariants hold again |
| SearchTrees.SearchTree.ForEachSubset | src/algorithms/aidfd/search_tree.cpp:153-158 | Lists exactly the stored subsets, each once, despite the pruning by intersections and bits |
| SearchTrees.SearchTree.ContainsAnySubsetOf | src/algorithms/aidfd/search_tree.cpp:125-134 | True exactly when a stored subset exists |
| SearchTrees.SearchTree.CollectSubsets | src/algorithms/aidfd/search_tree.cpp:107-123 | The recursive walk: complete unless told to stop, and stopping exactly when a subset has been found |
| SearchTrees.SearchTree.ForEach | src/algorithms/aidfd/search_tree.cpp:136-151 | Lists every stored bitset once |
| SearchTrees.SearchTree.FindNode | src/algorithms/aidfd/search_tree.cpp:171-192 | Finds the leaf of a stored bitset together with its path, or null |
| SearchTrees.SearchTree.CutLeaf | src/algorithms/aidfd/search_tree.cpp:194-216 | Takes a leaf and its parent out of the tree; what remains below every node loses exactly that bitset |
| SearchTrees.SearchTree.InsertLeafIntoEnd | src/algorithms/aidfd/search_tree.cpp:232-251 | A leaf becomes an inner node over its old and the new bitset |
| SearchTrees.SearchTree.InsertLeafIntoMiddle | src/algorithms/aidfd/search_tree.cpp:253-273 | An inner node moves below a new bit beside the new bitset |
| SearchTrees.SearchTree.UpdateInterAndUnion | src/algorithms/aidfd/search_tree.cpp:160-169 | Restores the unions and intersections on the path to the root |
| SearchTrees.FindNodeAndSetBits | src/algorithms/aidfd/search_tree.cpp:218-230 | The first position in which two bitsets differ, and which of them has it |
| SearchTrees.SearchTree.Singletons | src/algorithms/aidfd/search_tree.cpp:42-52 | A new tree with the single columns of a set |
| SearchTreeNodes.GrowMiddle | src/algorithms/aidfd/search_tree.cpp:253-273 | Inserting in the middle gives a tree again: crit-bit shape, links and contents everywhere, sums everywhere but on the path to the root |
| SearchTreeNodes.GrowEnd | src/algorithms/aidfd/search_tree.cpp:232-251 | Inserting at a leaf gives a tree again in the same sense |
| SearchTreeNodes.ShrinkTree | src/algorithms/aidfd/search_tree.cpp:194-216 | Cutting a leaf with its parent gives a tree again in the same sense |
| AidEngine.Aid.ExecuteInternal | src/algorithms/aidfd/aid.cpp:41-54 | The sample is what the rows determine, and the list is exactly its inversion, each dependency once: the minimal dependencies if and only if there are rows and that sample suffices, which it does whenever no value of a column that is not constant occurs more than twelve times |
| AidTheory.CoversEveryFd | src/algorithms/aidfd/aid.cpp:184-231 | Wherever sampling stopped, every dependency that holds on a relation with rows has a registered one with the same right side inside it |
| AidTheory.CoversUnlessNoRows | src/algorithms/aidfd/aid.cpp:184-231 | Every dependency that holds is covered if and only if there are rows or no columns |
| AidTheory.NoRowsNotCovered | src/algorithms/aidfd/aid.cpp:62-80 | Without rows every column is determined by nothing, but nothing of the kind is registered |
| AidTheory.ExactWhenAllHold | src/algorithms/aidfd/aid.cpp:184-231 | The result is exactly the minimal dependencies if and only if there are rows and every registered dependency holds |
| AidTheory.ExactWhenSampled | src/algorithms/aidfd/aid.cpp:184-231 | The result is exactly the minimal dependencies if and only if there are rows and every agree set with more than constants lies, for each column that it lacks, inside a sampled one that lacks it |
| AidEngine.Aid.CreateNegativeCover | src/algorithms/aidfd/aid.cpp:95-117 | Exactly the agree sets of the pairs that the rounds compare, up to the first round after which the average growth of the last ten is below the threshold |
| AidSampling.RoundsAtLeast | src/algorithms/aidfd/aid.cpp:95-117 | There are at least ten rounds, and at least eleven once anything is sampled |
| AidSampling.RoundsAreBounded | src/algorithms/aidfd/aid.cpp:95-117 | Sampling ends at most ten rounds past the number of times that the most frequent value occurs |
| AidEngine.Aid.IsNegativeCoverGrowthSmall | src/algorithms/aidfd/aid.cpp:82-93 | The window keeps the growth of the last ten rounds, those before the first counting as one, and the answer is whether their average is below the threshold |
| AidEngine.WindowStep | src/algorithms/aidfd/aid.cpp:82-93 | Overwriting one place and correcting the sum moves the window on by one round |
| AidEngine.Aid.HandleTuple | src/algorithms/aidfd/aid.cpp:119-132 | Adds exactly the agree sets of the tuple with one earlier tuple for each column in which at least as many earlier tuples have its value as the round says: the one whose own number of such tuples is the multiple of the prime modulo that of the tuple |
| AidEngine.PlaceInCluster | src/algorithms/aidfd/aid.cpp:56-80 | The place of a tuple in its cluster is the number of earlier tuples with its value |
| AidSampling.RepeatIsSampled | src/algorithms/aidfd/aid.cpp:119-132 | Already the first round samples every tuple with some earlier tuple of the same value, column by column |
| AidSampling.RoundFor | src/algorithms/aidfd/aid.cpp:242-244 | For every place up to eleven the rounds up to that place pick each earlier place |
| AidSampling.TwelveTimesSuffice | src/algorithms/aidfd/aid.cpp:95-132 | When no value of a column that is not constant occurs more than twelve times, the sample has what is needed |
| AidSampling.ThirteenTimesMiss | src/algorithms/aidfd/aid.cpp:95-132 | An input that shows the bound to be sharp: with two values that occur thirteen times sampling stops after eleven rounds and misses an agree set |
| AidEngine.Aid.BuildClusters | src/algorithms/aidfd/aid.cpp:56-80 | Clusters hold the rows by value with their places, and the constant columns are exactly those determined by nothing |
| AidEngine.Aid.HandleInvalidFd | src/algorithms/aidfd/aid.cpp:157-182 | One sampled set without the right side: the tree becomes the minimal hitting sets of the family with the complement of that set |
| AidEngine.Aid.InvertNegativeCover | src/algorithms/aidfd/aid.cpp:184-231 | For any sample and any order of ties: constants get the empty left side, other columns the minimal non-empty sets of usable columns inside no sampled set without them, each once |
| AidEngine.Aid.GetAttributesSortedByFrequency | src/algorithms/aidfd/aid.cpp:259-277 | A permutation of the columns by the falling number of sampled sets that have them |
| AidEngine.Aid.ChangeAttributesOrder | src/algorithms/aidfd/aid.cpp:246-257 | The set with its columns renumbered |
| AidTheory.RenamedMinimal | src/algorithms/aidfd/aid.cpp:198-223 | Renumbering columns keeps minimal hitting sets |
| AidTheory.RenamedCoverBack | src/algorithms/aidfd/aid.cpp:219-226 | Renumbering the cover back gives the cover of the original family, without collisions |
| PositionListIndexes.CreateFor | src/util/position_list_index.cpp:44-92 | The canonical stripped partition of one column; on the values: two rows share a cluster exactly when their values are equal and nulls are equal to each other or the value is none |
| Relations.AgreeOnValues | src/util/position_list_index.cpp:44-58 | Two different rows agree on columns exactly when they have equal values there, none of them null unless nulls are equal |
| Relations.NullAgreesWithNone | src/util/position_list_index.cpp:56-58 | With nulls that differ a row agrees with no other row on columns in which it has a null |
| Relations.NullColumn | src/util/position_list_index.cpp:56-58 | A column of nulls is a key exactly when nulls differ or there are fewer than two rows, and constant exactly when they are equal or there are fewer than two |
| PositionListIndexes.Intersect | src/util/position_list_index.cpp:136-141 | The canonical stripped partition of the union, whichever side is probed |
| PositionListIndexes.Probe | src/util/position_list_index.cpp:144-190 | The canonical stripped partition of the union from one probing table |
| PositionListIndexes.ProbeAll | src/util/position_list_index.cpp:193-248 | The canonical stripped partition of the union from several columns at once |
| PositionListIndexes.CalculateAndGetProbingTable | src/util/position_list_index.cpp:103-117 | Two rows have the same entry other than the singleton value exactly when they agree |
| PositionListIndexes.PliUnique | src/util/position_list_index.cpp:98-101 | Two indexes of the same columns are the same sequence |
| PositionListIndexes.IntersectInAnyOrder | src/util/position_list_index.cpp:136-248 | Intersecting three indexes in two orders and probing the columns of two of them at once give the same sequence |
| PositionListIndexes.PliCounts | src/util/position_list_index.h:35-37 | The nep is the number of agreeing row pairs, the cluster count the number of classes, and the size the number of rows that are not alone |
| PositionListIndexes.ConstantColumn | src/util/position_list_index.h:111-113 | The constant test holds exactly for columns determined by nothing |
| Partitions.NepDecidesFd | src/util/position_list_index.h:87-113 | Adding a column never raises the nep, and leaves it unchanged exactly when the dependency holds |
| Partitions.ClassCountDecides | src/util/position_list_index.h:90-92 | A larger set has at least as many classes, and the same number exactly when all its columns are determined |
| Partitions.PartitionUnique | src/util/position_list_index.cpp:98-101 | A canonical partition is determined by its relation and columns |
| PliCaches.PLICache.GetOrCreateFor | src/util/pli_cache.cpp:47-171 | Returns the index of the requested columns unless there are none or the method is unsupported and they are not cached; every entry stays as it is, new ones lie inside the columns, nothing changes on a hit or without caching, and with caching of all the result is an entry |
| PliCaches.PLICache.constructor | src/util/pli_cache.cpp:16-37 | The cache starts with the indexes of the single columns |
| PliCaches.PLICache.CachingProcess | src/util/pli_cache.cpp:177-199 | What each method keeps in the cache, with every entry as it was, and the index handed back |
| PliCaches.CoverGreedily | src/util/pli_cache.cpp:89-122 | The greedy loop ends, and its operands are indexes of subsets whose union is the cover |
| PliCaches.PLICache.AddMissingColumns | src/util/pli_cache.cpp:125-134 | Single columns complete the union |
| PliCaches.PLICache.IntersectPairwise | src/util/pli_cache.cpp:150-166 | Whatever is cached on the way, the last intersection is the index of the union; the new entries are among the unions passed through, all of them with caching of all and none without |
| PliCaches.PLICache.IntersectAtOnce | src/util/pli_cache.cpp:144-149 | Probing the missing columns together gives the index of the union, the only entry that may be new |
| FdG1Strategies.FdG1Strategy.CalculateError | src/core/fd_g1_strategy.cpp:74-95 | The error times the number of row pairs is the number of pairs that agree on the left side and differ on the right, and zero without pairs; the cache keeps its entries |
| FdG1Strategies.FdG1Strategy.CountViolations | src/core/fd_g1_strategy.cpp:74-95 | That number, for the empty left side, with a cached joint index and by probing alike |
| FdG1Strategies.FdG1Strategy.CountByProbing | src/core/fd_g1_strategy.cpp:11-48 | The number of violating row pairs |
| FdG1Strategies.ViolationsInCluster | src/core/fd_g1_strategy.cpp:37-45 | The pairs of a cluster less those of its groups, never below zero on the way |
| FdG1Strategies.G1Decides | src/core/fd_g1_strategy.cpp:50-56 | The share lies between 0 and 1; it is 0 exactly when the dependency holds, and 1 exactly when every two rows agree on the left side and no two on the right |
| Depminer.Depminer.ExecuteInternal | src/algorithms/depminer/depminer.cpp:21-53 | Generates agree sets with the factory, some that the methods may give, and lists exactly what they let appear as minimal dependencies, each once; these are the minimal dependencies if and only if the agree sets suffice |
| Depminer.Depminer.GenerateCmaxSets | src/algorithms/depminer/depminer.cpp:55-111 | For each column the complements of the inclusion-maximal agree sets without it |
| Depminer.Depminer.LhsForColumn | src/algorithms/depminer/depminer.cpp:113-152 | Appends exactly the minimal transversals of the complements without the column, each once |
| Depminer.Depminer.GenNextLevel | src/algorithms/depminer/depminer.cpp:174-202 | Exactly the sets all of whose immediate subsets are in the level |
| Depminer.CheckJoin | src/algorithms/depminer/depminer.cpp:204-218 | True exactly when both sets have the same size and the largest column of the first lies below that of the second; the shared prefix is not looked at |
| Depminer.NextIsLevel | src/algorithms/depminer/depminer.cpp:174-202 | The next level of the sets that miss some member is exactly the level one larger |
| Depminer.TransversalsAreSeenFds | src/algorithms/depminer/depminer.cpp:113-152 | The minimal transversals that avoid the column are exactly the left-hand sides that the agree sets let appear |
| AgreeSetFactories.AgreeSetFactory.GenAgreeSets | src/util/agree_set_factory.cpp:27-63 | Exactly the agree sets of the pairs that the method compares, and the empty set; which pairs these are follows from the classes that the other method leaves of the columns in some order of its hash sets |
| AgreeSetFactories.AgreeSetFactory.GenAsUsingVectorOfIdSets | src/util/agree_set_factory.cpp:65-111 | Exactly the agree sets of all pairs of rows of the found classes, whether the two share a class or not |
| AgreeSetFactories.AgreeSetFactory.GenAsUsingMc | src/util/agree_set_factory.cpp:216-231 | Exactly the agree sets of the pairs that share a found class, compared directly or by identifier sets |
| AgreeSetFactories.AgreeSetFactory.GenPliMaxRepresentation | src/util/agree_set_factory.cpp:268-305 | Two methods give the inclusion-maximal classes, and the third what some way through the columns leaves |
| AgreeSetFactories.AgreeSetFactory.GenAsUsingGetAgreeSets | src/util/agree_set_factory.cpp:233-251 | Exactly the agree sets of the pairs that agree somewhere, found as pairs within the classes of all columns |
| AgreeSetFactories.AgreeSetFactory.GetAgreeSet | src/util/agree_set_factory.cpp:253-266 | The columns in which two different rows agree |
| AgreeSetFactories.CoveringSuffices | src/util/agree_set_factory.cpp:113-214 | Classes that cover those of all columns give agree sets that suffice, whichever method compares their pairs |
| AgreeSetFactories.MethodsThatSuffice | src/util/agree_set_factory.cpp:27-63 | Every family that the factory may give suffices, unless `CalculateSupersets` finds the classes and the other method uses them |
| AgreeSetFactories.SufficesOnColumns | src/util/agree_set_factory.cpp:307-332 | With `CalculateSupersets` every family suffices if and only if, for every way through the columns, the compared pairs of the classes that are left do |
| AgreeSetFactories.NoLossSuffices | src/util/agree_set_factory.cpp:307-332 | They do when in no pass the kept classes can be sent to places of their own before a new class |
| AgreeSetFactories.FactoryAgreeSets | src/util/agree_set_factory.cpp:27-63 | The probing tables of the columns and the factory on top of them: the family is one that the methods may give for the relation |
| AgreeSetFactories.IntersectIdentifiers | src/util/identifier_set.h:44-64 | The merge loop finds exactly the attributes that both lists have with the same cluster other than the singleton one |
| AgreeSetFactories.AgreeSetFactory.IdentifiersGiveAgreeSet | src/util/identifier_set.h:44-64 | The intersection of two identifier sets is the agree set of their tuples |
| AgreeSetFactories.AgreeSetFactory.NewIdentifierSet | src/util/identifier_set.cpp:5-12 | The cluster of the tuple in every column |
| MaxRepresentations.GenMcUsingHandlePartition | src/util/agree_set_factory.cpp:395-430 | Exactly the inclusion-maximal classes of all columns |
| MaxRepresentations.GenMcUsingHandleEqvClass | src/util/agree_set_factory.cpp:334-378 | Exactly the inclusion-maximal classes of all columns |
| MaxRepresentations.IsSubset | src/util/agree_set_factory.cpp:502-531 | True exactly when a taken class contains the given one |
| MaxRepresentations.RemoveBelow | src/util/agree_set_factory.cpp:533-556 | Removes exactly the proper subsets of a class from an antichain, whatever the recursion meets on the way |
| MaxRepresentations.HandleEqvClass | src/util/agree_set_factory.cpp:533-558 | Removes the proper subsets and inserts the class |
| Supersets.CalculateSupersets | src/util/agree_set_factory.cpp:560-600 | One column: for some order of the kept classes, exactly what comparing each with the new classes, up to the first one inside it, adds and drops |
| Supersets.GenMcUsingCalculateSupersets | src/util/agree_set_factory.cpp:307-332 | All columns: what some way through them leaves, each pass in some order of the kept classes |
| Supersets.RunCovers | src/util/agree_set_factory.cpp:307-332 | A run finds or loses each class, and what it leaves covers exactly what lies inside a found class: all classes if and only if each lost one lies inside a found one |
| Supersets.LostInSomeOrder | src/util/agree_set_factory.cpp:560-600 | Some order of the kept classes lets a pass overlook the new class at a place if and only if the kept classes can be sent to places of their own before it, each to a new class inside it |
| Supersets.LostInSomeRun | src/util/agree_set_factory.cpp:307-332 | No run loses a class if and only if no pass can, on any kept classes that the columns before it may leave |
| Supersets.LooksAtAll | src/util/agree_set_factory.cpp:576-583 | Nothing can be lost when some kept class has no new class inside it |
| Supersets.NewIsCovered | src/util/agree_set_factory.cpp:560-600 | After a pass a new class lies inside a found one if and only if some kept class looked at it or it lay inside a kept one before |
| Supersets.KeptStaysCovered | src/util/agree_set_factory.cpp:560-600 | A pass loses no class that was kept |
| Supersets.LosesClass | src/util/agree_set_factory.cpp:576-583 | An input that loses a class in every run: the classes [0, 1] of one column, and [0, 1] and [2, 3] of the next |
| Supersets.DroppedForLarger | src/util/agree_set_factory.cpp:560-600 | In every order a kept class is dropped when a larger new class lies inside no kept one |
| Supersets.ApartAfterPass | src/util/agree_set_factory.cpp:560-600 | Classes of which none lies inside another one stay so if and only if no class that the pass adds lies inside a kept one |
| Supersets.ApartWhenOneInside | src/util/agree_set_factory.cpp:560-600 | They stay so in every order when each kept class has at most one new class inside it |
| Supersets.KeepsNested | src/util/agree_set_factory.cpp:560-600 | An input on which a class stays inside another one in every run: [0, 1, 2, 3], then [4, 5], then [0, 1] and [2, 3] |
| AprioriMining.Apriori.FindFrequent | src/algorithms/association_rules/apriori.cpp:118-145 | For any transaction ids the tree ends with exactly the itemsets that are frequent by their counts, each once below its prefix, and all of them are truly frequent; with ids that can be told apart as int these are all the frequent itemsets, with their true support; the loop ends |
| AprioriMining.Apriori.CountLevel | src/algorithms/association_rules/apriori.cpp:123-141 | One level: the candidates are counted, and those that reach the minimum go to the tree |
| AprioriMining.CountsDecide | src/algorithms/association_rules/apriori.cpp:118-145 | Frequent by the counts is truly frequent, and the other way round when the ids can be told apart |
| AprioriMining.Apriori.GenerateNextCandidateLevel | src/algorithms/association_rules/apriori.cpp:34-51 | The depth-first walk gives exactly the itemsets one larger whose subsets with one item less are all frequent |
| AprioriMining.Apriori.GenerateCandidates | src/algorithms/association_rules/apriori.cpp:12-25 | The candidates below each of the siblings |
| AprioriMining.Apriori.CanBePruned | src/algorithms/association_rules/apriori.cpp:74-116 | True exactly when a subset without one of the items before the last is infrequent |
| AprioriMining.Apriori.FindSubset | src/algorithms/association_rules/apriori.cpp:78-112 | The walk down the tree finds the itemset without one item exactly when it is frequent |
| AprioriMining.Apriori.AppendToTree | src/algorithms/association_rules/apriori.cpp:218-224 | The judged candidates complete the next level of the tree |
| AprioriMining.Apriori.CreateFirstLevelCandidates | src/algorithms/association_rules/apriori.cpp:27-32 | All single items |
| AprioriMining.Apriori.GetSupport | src/algorithms/association_rules/apriori.cpp:195-216 | The support of the itemset at which the search ends by taking the first child that is not below the wanted item, and -1 exactly when the search runs out of children; for a frequent itemset this is its own |
| AprioriMining.SupportMonotone | src/algorithms/association_rules/apriori.cpp:74-116 | A subset has at least the support of its superset |
| AprioriMining.SupportIsShare | src/algorithms/association_rules/candidate_hash_tree.cpp:103-119 | The support times the number of transactions is the number of those that have all items; it is one exactly when all do and zero exactly when none does |
| CandidateHashTrees.CandidateHashTree.PerformCounting | src/algorithms/association_rules/candidate_hash_tree.cpp:88-101 | For any branching degree and threshold, no row ends with more than the number of transactions that contain it, and every row with exactly that when their ids can be told apart as int; a tree of a single leaf is visited once per transaction in some order |
| MissedCounts.MissedUnlessToldApart | src/algorithms/association_rules/candidate_hash_tree.cpp:73-101 | Whenever the ids cannot be told apart, some order of the transactions and some single item give a count that is too small |
| MissedCounts.CollidingIds | src/algorithms/association_rules/candidate_hash_tree.cpp:73-101 | Inputs that show it: ids 0 and 2^32, and id 2^32 - 1, with item 0 |
| CandidateHashTrees.CandidateHashTree.CountTransaction | src/algorithms/association_rules/candidate_hash_tree.cpp:89-100 | One transaction raises exactly the rows it contains, each by one, when no leaf carries its id converted to int, and never another row or by more |
| CandidateHashTrees.FindAndVisitLeaves | src/algorithms/association_rules/candidate_hash_tree.cpp:57-71 | Following the items from one start position leaves no contained row with that first item in an unvisited leaf |
| CandidateHashTrees.VisitLeaf | src/algorithms/association_rules/candidate_hash_tree.cpp:73-86 | A leaf is counted once per transaction |
| CandidateHashTrees.AppendRow | src/algorithms/association_rules/candidate_hash_tree.cpp:8-25 | The rows grow by one, and every row is where its items hash to |
| CandidateHashTrees.AddLevel | src/algorithms/association_rules/candidate_hash_tree.cpp:27-43 | Splitting a leaf keeps its rows |
| CandidateHashTrees.CandidateHashTree.PruneNodes | src/algorithms/association_rules/candidate_hash_tree.cpp:121-123 | Candidates below the minimum support are erased, the others get their support |
| CandidateHashTrees.CandidateHashTree.Prune | src/algorithms/association_rules/candidate_hash_tree.cpp:103-119 | The same for the rows below one node |
| CandidateHashTrees.ProgressEnds | src/algorithms/association_rules/candidate_hash_tree.cpp:57-101 | When no contained row is left unvisited, every row has been counted exactly |
| Levenshteins.LevenshteinDistance | src/util/levenshtein_distance.cpp:12-42 | The least number of single-character insertions, deletions and substitutions |
| Levenshteins.DistanceIsLeast | src/util/levenshtein_distance.cpp:12-42 | The recurrence can be reached by edits, and fewer edits do not suffice |
| Levenshteins.EditChangesByOne | src/util/levenshtein_distance.cpp:26-37 | An edit anywhere changes the distance to any string by at most one |
| Levenshteins.DistanceIsMetric | src/util/levenshtein_distance.cpp:12-42 | Zero exactly for equal strings, symmetric, and the triangle inequality |
| MetricVerifiers.MetricVerifier.VerifyMetricFD | src/algorithms/metric/metric_verifier.cpp:253-271 | Brute force, and for a numeric column the comparison of extremes whatever the algorithm, hold exactly when rows that agree on the left side are at most the parameter apart, nulls included; the approximation holds exactly when no class has a null that counts and each present value is at most half the parameter from that of the first row of its class that has one |
| MetricVerifiers.ApproxComparesFirst | src/algorithms/metric/metric_verifier.cpp:437-447 | On one cluster: the first present value is compared with all later ones |
| MetricVerifiers.MetricVerifier.NearClustersDecide | src/algorithms/metric/metric_verifier.cpp:260-270 | Checking the clusters of the left side decides the approximation over all row pairs |
| MetricVerifiers.MetricVerifier.NearFirstBetween | src/algorithms/metric/metric_verifier.cpp:437-460 | The dependency with half the parameter implies the approximation, which for a metric implies the dependency |
| MetricVerifiers.BruteVerifyCluster | src/algorithms/metric/metric_verifier.cpp:449-460 | True exactly when all pairs of points are close |
| MetricVerifiers.CompareNumericValues | src/algorithms/metric/metric_verifier.cpp:414-435 | True exactly when no two numbers differ by more than the parameter, from a running maximum and minimum |
| MetricVerifiers.MetricVerifier.CalculatePoints | src/algorithms/metric/points_calculator.cpp:95-169 | The present values of a cluster in order, and whether it has a null |
| MetricVerifiers.MetricVerifier.ClustersDecide | src/algorithms/metric/metric_verifier.cpp:260-270 | Checking the clusters of the left side decides the dependency over all row pairs |
| MetricVerifiers.MetricVerifier.LhsPli | src/algorithms/metric/metric_verifier.cpp:254-259 | The index of all left-hand columns |
| MetricVerifiers.LevenshteinIsMetric | src/algorithms/metric/metric_verifier.cpp:312-315 | The Levenshtein distance fulfils what the approximation needs |
| CtaneErrors.CalculatePartitionError | src/algorithms/ctane/ctane.cpp:46-69 | The least number of rows to remove before every cluster of X lies inside a single cluster of X with A |
| CtaneErrors.OneMoreCluster | src/algorithms/ctane/ctane.cpp:57-66 | The least removals of separate clusters add up |
| CtaneErrors.LastRowDecides | src/algorithms/ctane/ctane.cpp:49-52 | A cluster that has the last row of a refining cluster has all of it |
| CtaneErrors.NoErrorMeansInside | src/algorithms/ctane/ctane.cpp:40-44 | The error is zero exactly when nothing has to be removed |
| Engines.EnginesAgree | src/algorithms/fdep/fdep.cpp:41-64 | Each exact engine lists the minimal dependencies exactly under its own condition on rows, agree sets or width, and the lists that do are permutations of each other; AID lists something inside each dependency, and the same list if and only if its sample suffices |
| Engines.RunFastFds | src/algorithms/fastfds.cpp:272-281 | FastFDs with any of the methods: what it lists is decided by a family that the factory may give, and is right whenever every such family suffices |
| Engines.RunDepminer | src/algorithms/depminer/depminer.cpp:21-53 | Depminer likewise |
| Engines.RightWhenAlwaysSufficient | src/algorithms/fastfds.cpp:272-281 | Everything that FastFDs or Depminer may list on a relation is right if and only if every family that the factory may give suffices |
| Engines.DefaultsRightOnColumns | src/util/agree_set_factory.h:115-123 | With the default methods: if and only if, for every way through the columns, the pairs that share a class that is left suffice with the empty set |
| Engines.SameDependencies | src/algorithms/fdep/fdep.cpp:41-64 | A list is a permutation of a list of the minimal dependencies if and only if it is one itself |
| Engines.RunAid | src/algorithms/aidfd/aid.cpp:41-54 | AID on the values of a table, with nulls equal: right if and only if there are rows and the sample that the rows determine suffices |
| Engines.AidMisses | src/algorithms/aidfd/aid.cpp:95-132 | On a table in which two values occur thirteen times AID lists a dependency that does not hold |
| Engines.DefaultsMissAClass | src/util/agree_set_factory.h:115-123 | With the default methods FastFDs and Depminer list that the second column determines the first, which does not hold, on a relation of four rows and two columns |

## Left out

Contracts that say less than they might:

- AgreeSetFactories.AgreeSetFactory.GenAgreeSets: does not model the parallel way of finding the maximal classes, which throws.
- Supersets.CalculateSupersets: keeps the iterators of dropped classes as the classes themselves, so that a rehash between insertions and removals is not modelled.
- Engines.EnginesAgree: takes fewer than 256 columns, the size of the bitsets of FDep, and compares FDep and AID with the others on relations with equal nulls only, because those two compare values directly.
- FdTree.FdTreeElement.GetSpecialization: does not model its out-parameter (`src/algorithms/fdep/fd_tree_element.cpp:136`), which nobody reads.
- AidEngine.Aid.IsNegativeCoverGrowthSmall: takes ratios and their running sum as exact reals, so that rounding of the sum, which might move the round after which sampling stops, is not modelled.
- FdG1Strategies.FdG1Strategy.CalculateError: takes the quotient as an exact real and does not model the rounding of the error.
- CandidateHashTrees.CandidateHashTree.PruneNodes: compares the support quotient as an exact real, so that an itemset just below the minimum, which the rounding of a `double` may let survive, is erased.
- CandidateHashTrees.CandidateHashTree.Prune: does so for the rows below one node.
- TaneLevels.ErrorsDecide: takes the quotients of `double` values as exact reals and does not model their rounding.

What the model does not capture:

- Integer widths are unbounded except where a sentinel or a limit matters (`MAX_UNSIGNED`, `NO_INDEX`, `MAX_ATTR_NUM`, singleton and null value identifiers).
- Threads, locks, `BlockingVerticalMap`, progress, timing, logging, options and reading of input; an empty table without columns is rejected before an engine runs.
- Approximate mode of TANE (an error above zero), and freeing of old levels by `ClearLevelsBelow`.
- The loop of `AddFunctionalDependency` is a recursion over the same path.
- Collector callbacks are lists of what they were called with or pure predicates; a pruning function is a pure predicate that supersets inherit.
- `VerticalMap::Shrink`, which the header advises against, and the map's usage counters.
- Collisions of the string hashes by which FDep (`src/algorithms/fdep/fdep.cpp:36`) and AID identify values.
- `CreatePliForEmptyVertex`, entropy, gini impurity and the frequency counters of a position list index.
- Eviction and ownership of cached indexes; the coin that decides about caching may fall either way at every call.
- Identifier sets are computed when needed instead of being kept in a map.
- Nodes of the candidate hash tree and of the Apriori tree are values and map entries under their itemset, so that update in place and aliasing of those nodes are not captured; the per-node row counter is left out.
- Generation of association rules from the frequent itemsets.
- Metric verification by the cosine metric, over several dimensions or with calipers and convex hulls, and its highlights; distances are exact reals.
- CTANE apart from its partition error.
- HyFD, Pyro, DFD, Fd_mine, algebraic constraints and the typed column storage.
