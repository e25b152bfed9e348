# GA seating problem: a verified model of the optimisation engine

GASeatingProblem seats the employees who check in on a given day at the 146
desks of an office floor, using a genetic algorithm. A chromosome is the list
of person indices, in desk order. The population evolves as follows:

- roulette selection chooses two distinct parents;
- slot-wise crossover (four modes) produces two children;
- a duplicate repair puts absent employees in place of repeated ones;
- a swap-only mutation rearranges each child;
- an evaluator scores every layout.

The evaluator counts three things. The first is conflicting pairs seated
within two separators of each other. The second is people at the other team's
desks. The third is people who keep yesterday's seat.

This Dafny project models that engine, file by file:

| file | module | models |
|---|---|---|
| `common.dfy` | `Common` | `Option`/`Result`, the error kinds, the range of `Random.Next`, C#'s truncating `/`, sums, duplicate-freedom |
| `desk.dfy` | `Desks` | `Desk`: the (row, col) ↔ slot index bijection over the west table and the east rows, and the separator count |
| `person.dfy` | `People` | `Person.Equals` and the symmetric conflict relation built by `TryAddConflict` |
| `rng.dfy` | `Rng` | `GlobalRandom.YatesShuffle` in place on an array, and the `GetLocalRNG` seed counter |
| `evaluator.dfy` | `Evaluator` | `LayoutEvaluator`: `CountInRangeConflicts`, `CountEmployeeOccurences`, the tallies and score of `GetFitness`, `EmptyDesks`, the remap of `LoadPriorSeating` |
| `chromosome.dfy` | `Chromosome` | `LayoutChromosome` as a class: crossover, mutation, duplicate repair, the fitness set/get |
| `population.dfy` | `Population` | `LayoutPopulation` as a class: evaluation with running statistics, roulette selection, the generation loop, random and historic seeding |

Several parts of the source state become explicit in the model:

- **Randomness.** Every call into `System.Random` becomes a parameter whose
  range is the range of that call. `Next(a, b)` lies in [a, b) and returns
  a when a == b.
- **Statics.** The static employee, desk and target-layout fields become an
  immutable `World` value and a `PriorTarget` value, passed in.
- **In-place updates as state.** The source updates chromosomes, populations,
  desks, the conflict lists and the shuffled lists in place. In the model
  these become classes with `modifies` clauses, or arrays.
- **Methods tied to functions.** Every method is proved against a function of
  its inputs or old state. Sequences: `Shuffled`, `Child1`/`Child2`,
  `Mutated`, `Repaired`. Counts and maps: `InRangeConflicts`, `Occurrences`,
  `Remap`. Population: `Tally`, `Pick`, `Generation`, `RandomLayouts`,
  `HistoricLayouts`. The lemmas state what those functions mean.

Where the code and its description differ, the model follows the code:

- **Clone mode.** Clone's illustration in `CrossoverType.cs` shows the
  children equal to the parents. The code takes every slot from the other
  parent, so child 1 is the partner and child 2 is `this`, as `CloneShape`
  states.
- **Odd population sizes.** Children are added two at a time until there are
  at least as many as parents. An odd population therefore finishes with one
  child more than it had parents, as `GenerationShape` states.
- **One-chromosome population.** Every pass draws the same parent twice and
  is skipped, so the loop never finishes (`LoneChromosomeNeverBreeds`).
- **All fitness values zero.** The roulette bound is zero, so the first
  chromosome is chosen, not the "final chromosome" fallback the comment
  describes (`ZeroBoundPicksFirst`). Both parents are then the same
  chromosome on every pass, so a generation never finishes
  (`ZeroTotalNeverBreeds`).
- **CentreChunk illustration.** For four slots, `Next(1, 2)` and
  `Next(first + 1, 3)` can only draw first = 1 and second = 2. CentreChunk
  then exchanges the second slot alone: [1, 6, 3, 4] and [5, 2, 7, 8]. The
  illustrated [1, 6, 7, 4] and [5, 2, 3, 8] cannot occur
  (`CrossoverIllustrations`).
- **Separator count.** The evaluator measures nearness with
  `countSeperatorsBetweenDesks` as written (`Desks.SeparatorsAsWritten`),
  row-30 behaviour included. The corrected count `Desks.Separators` is the
  corrected half of the finding below and agrees with it away from row 30.

## Model

| member | source | states |
|---|---|---|
| Common.TruncDiv | GASeatingProblem/Seating/Desk.cs:129-134 | C#'s `/` on int truncates toward zero: the remainder a − q·b lies in [0, b) for a ≥ 0 and in (−b, 0] for a < 0 |
| Rng.Swap | GASeatingProblem/RNG.cs:45-47 | the two entries are exchanged; the length and every other entry are kept |
| Rng.SwapPermutes | GASeatingProblem/RNG.cs:45-47 | one exchange keeps the multiset of entries |
| Rng.Shuffled | GASeatingProblem/RNG.cs:38-49 | the Fisher-Yates pass as a function of the list and the draws; no contract of its own: `ShuffledPermutes`, `ShuffledNoDuplicates` and `YatesShuffle` state what it is |
| Rng.ShuffleFromPermutes | GASeatingProblem/RNG.cs:42-48 | the shuffle steps from i on keep the length and the multiset of entries |
| Rng.ShuffledPermutes | GASeatingProblem/RNG.cs:42-48 | the whole shuffle is a permutation of the list |
| Rng.ShuffleFromKeepsPrefix | GASeatingProblem/RNG.cs:42-48 | the steps from i on never touch the positions before i |
| Rng.ShuffledNoDuplicates | GASeatingProblem/RNG.cs:42-48 | a duplicate-free list stays duplicate-free |
| Rng.YatesShuffle | GASeatingProblem/RNG.cs:38-49 | with each step's partner j drawn from [i, n), the array ends as the step-by-step shuffle of its old contents, a permutation of them |
| Rng.NextSeed | GASeatingProblem/RNG.cs:17-20 | `seedCounter++` stays a 32-bit int: it adds one below `int.MaxValue` and wraps from `int.MaxValue` to `int.MinValue` |
| Rng.SeedAfterIsOffset | GASeatingProblem/RNG.cs:17-20 | the k-th generator (k < 2^32) gets seed Int32.MinValue + k, so each call's seed is one more than the previous one |
| Rng.SeedCounter.constructor | GASeatingProblem/RNG.cs:17 | the counter starts at Int32.MinValue |
| Rng.SeedCounter.GetLocalRNG | GASeatingProblem/RNG.cs:18-22 | returns the current seed and advances the counter by the wrapping increment |
| People.Equals | GASeatingProblem/Seating/Person.cs:41-48 | true exactly when index, name and team all match |
| People.EqualsInGraph | GASeatingProblem/Seating/Person.cs:41-48 | among the people of a valid graph, `Equals` holds exactly for the same index |
| People.ConflictGraph.constructor | GASeatingProblem/Seating/Person.cs:14-20 | the people keep their name, index and team; every conflict list starts empty; the relation is valid |
| People.ConflictGraph.HasConflict | GASeatingProblem/Seating/Person.cs:27-31 | the scan finds q exactly when q is in p's list |
| People.ConflictGraph.TryAddConflict | GASeatingProblem/Seating/Person.cs:22-39 | p == q is `SelfConflict` with nothing changed. q already listed gives false with nothing changed. Otherwise it gives true, q is appended to p's list, p to q's list unless already there, and no other list changes. The lists stay duplicate-free, owner-free and symmetric, and afterwards each is in the other's list iff p != q |
| Desks.ColCountAt | GASeatingProblem/Seating/Desk.cs:48-55 | the west table has 30 entries, rows 30 down to 1: two rows of 4, six of 5, eight of 3, twelve of 2, two of 3 |
| Desks.WestPrefixClosed | GASeatingProblem/Seating/Desk.cs:48-55 | closed form of the seats in the first k west rows |
| Desks.WestTotal | GASeatingProblem/Seating/Desk.cs:48-55 | the west zone has 92 desks, and with 18 east rows of 3 the floor has 146 |
| Desks.WestPrefixMonotone | GASeatingProblem/Seating/Desk.cs:48-55 | every west row has at least two seats, so the cumulative counts grow by at least 2 per row |
| Desks.WestSlotFinds | GASeatingProblem/Seating/Desk.cs:60-67 | the west walk stops at the first table slot whose cumulative count exceeds the target |
| Desks.WestSlotBounds | GASeatingProblem/Seating/Desk.cs:60-67 | for a west target, the slot found brackets it between consecutive cumulative counts |
| Desks.DeskIndex | GASeatingProblem/Seating/Desk.cs:24-41 | the linear index `GetIndex` computes for a legal row; no contract of its own: `IndexToDeskToIndex`, `DeskToIndexToDesk` and `Desk.GetIndex` state it |
| Desks.DeskAt | GASeatingProblem/Seating/Desk.cs:57-81 | the (row, col) `ConvertIndexToDesk` walks to, or none past the last desk; no contract of its own: `WestDeskFound`, `EastDeskFound`, `IndexToDeskToIndex` and `DeskToIndexToDesk` state it |
| Desks.IndexToDeskToIndex | GASeatingProblem/Seating/Desk.cs:57-115 | every index below 146 converts to a desk in a legal row whose own index is that index, and for a non-negative index the column lies within the row |
| Desks.DeskToIndexToDesk | GASeatingProblem/Seating/Desk.cs:57-115 | a legal desk with 1 <= col <= its row's seats converts back to the same row and column |
| Desks.SeparatorsAsWritten | GASeatingProblem/Seating/Desk.cs:117-143 | `countSeperatorsBetweenDesks` as written, the count the evaluator runs; no contract of its own: the `SeparatorsAsWritten…` lemmas below state its symmetry in each branch, its row-pair shift, its cross-zone formula and its row-30 asymmetry |
| Desks.SeparatorsAsWrittenAsymmetric | GASeatingProblem/Seating/Desk.cs:117-143 | as written, rows 29 and 30 are 37 separators apart measured from 29 and 0 measured from 30; row 30 to 25 gives 2 where 28 to 23 gives 1 |
| Desks.SeparatorsAsWrittenSymmetricWest | GASeatingProblem/Seating/Desk.cs:121-131 | as written, with both rows below 30 (the source's west branch) the count is symmetric |
| Desks.SeparatorsAsWrittenSymmetricEast | GASeatingProblem/Seating/Desk.cs:137-142 | as written, with both rows 30 or above (the source's east branch, row 30 included) the count is symmetric |
| Desks.SeparatorsAsWrittenShiftWest | GASeatingProblem/Seating/Desk.cs:121-131 | as written, two west rows whose shift stays below row 30 keep their count when both move up one row pair |
| Desks.SeparatorsAsWrittenCrossZone | GASeatingProblem/Seating/Desk.cs:133-134 | as written, from a row below 30 to a row of 30 or above (row 30 included): 1 + the count to row 1 + (77 − otherRow) / 2 with truncating division, and the count to row 1 in closed form |
| Desks.Separators | GASeatingProblem/Seating/Desk.cs:117-143 | the corrected count of the finding below, with the west branch for rows up to 30; no contract of its own: `SeparatorsAgreeAwayFromRow30` ties it to the count as written and the `Separators…` lemmas below state its properties |
| Desks.SeparatorsAgreeAwayFromRow30 | GASeatingProblem/Seating/Desk.cs:117-143 | the corrected count equals the one as written whenever neither row is 30 |
| Desks.SeparatorsSymmetricWest | GASeatingProblem/Seating/Desk.cs:123-131 | the corrected count (not the one the evaluator runs) is symmetric with both rows up to 30, row 30 included |
| Desks.SeparatorsSymmetricEast | GASeatingProblem/Seating/Desk.cs:137-142 | the corrected count (not the one the evaluator runs) is symmetric with both rows past 30 |
| Desks.SeparatorsShiftWest | GASeatingProblem/Seating/Desk.cs:123-131 | the corrected count (not the one the evaluator runs) of two west rows is kept when both move up one row pair, up to row 30 |
| Desks.SeparatorsCrossZone | GASeatingProblem/Seating/Desk.cs:133-134 | the corrected count (not the one the evaluator runs) from a west row to an east row: 1 + the count to row 1 + (77 − otherRow) / 2 with truncating division, and the count to row 1 in closed form |
| Desks.SeparatorsSameWestRow | GASeatingProblem/Seating/Desk.cs:126-130 | the corrected count (not the one the evaluator runs) of a west row against itself is −1 for an even row and 0 for an odd row (truncating division); for rows below 30 the count as written agrees (`SeparatorsAgreeAwayFromRow30`) |
| Desks.Desk.constructor | GASeatingProblem/Seating/Desk.cs:17-22 | row and column are stored, the index is computed at once for a legal row and left unset (−1) otherwise |
| Desks.NewDesk | GASeatingProblem/Seating/Desk.cs:17-22 | constructing a desk fails with InvalidGeometry exactly for a row outside 1..30 and 60..77; otherwise the desk holds row, col and its linear index |
| Desks.Desk.GetIndex | GASeatingProblem/Seating/Desk.cs:24-41 | a legal row gives the linear index and memoises it; any other row is InvalidGeometry and changes nothing |
| Desks.Desk.GetWestSideIndex | GASeatingProblem/Seating/Desk.cs:83-98 | for a west row: the seats of rows 30 down to Row + 1 plus col − 1, memoised |
| Desks.Desk.GetEastSideIndex | GASeatingProblem/Seating/Desk.cs:99-115 | for an east row: 92 + 3·(77 − Row) + col − 1, memoised |
| Desks.ConvertIndexToDesk | GASeatingProblem/Seating/Desk.cs:57-81 | null exactly for an index of 146 or more; otherwise a desk at the position `DeskAt` names whose memoised index is the target |
| Desks.WestDeskFound | GASeatingProblem/Seating/Desk.cs:60-67 | where the west walk stops, the desk it builds is `DeskAt`'s and has the target as index |
| Desks.EastDeskFound | GASeatingProblem/Seating/Desk.cs:70-77 | where the east walk stops, the desk it builds is `DeskAt`'s and has the target as index |
| Evaluator.ScanNeighborsAt | GASeatingProblem/Seating/LayoutEvaluator.cs:440-452 | after the neighbour scan for one partner, the origin's counter grows by the near hits and each near later desk holding the partner by one |
| Evaluator.ScanNeighborsSum | GASeatingProblem/Seating/LayoutEvaluator.cs:440-452 | the neighbour scan raises the counter total by twice its hits |
| Evaluator.ScanConflictorsAt | GASeatingProblem/Seating/LayoutEvaluator.cs:438-454 | after scanning every partner in the list, each counter grows by how often its occupant's match occurs in the list |
| Evaluator.ScanConflictorsSum | GASeatingProblem/Seating/LayoutEvaluator.cs:438-454 | the partner loop raises the total by twice its hits |
| Evaluator.ScanOriginsAt | GASeatingProblem/Seating/LayoutEvaluator.cs:432-455 | over origins d onward, desk k's counter gains its pairs with earlier origins and with later desks |
| Evaluator.ScanOriginsSum | GASeatingProblem/Seating/LayoutEvaluator.cs:432-455 | the outer loop raises the total by twice the matches |
| Evaluator.Near | GASeatingProblem/Seating/LayoutEvaluator.cs:445-447 | two desks are near when the count as written from the first desk's row to the second's is below 2; no contract of its own: `InRangeConflictsAt` states the counters in terms of it |
| Evaluator.InRangeConflicts | GASeatingProblem/Seating/LayoutEvaluator.cs:425-458 | one counter per desk; what each counter is comes from `InRangeConflictsAt`, and `CountInRangeConflicts` is proved equal to it |
| Evaluator.InRangeConflictsAt | GASeatingProblem/Seating/LayoutEvaluator.cs:425-458 | desk k's counter counts the pairs i < j containing k whose later occupant is in the earlier one's conflict list and whose desks are fewer than two separators apart |
| Evaluator.InRangeConflictsSumEven | GASeatingProblem/Seating/LayoutEvaluator.cs:449-451 | each match raises two counters, so the counters sum to twice the matches, an even number |
| Evaluator.CountNeighborConflicts | GASeatingProblem/Seating/LayoutEvaluator.cs:440-453 | the innermost loop updates the counter array as the neighbour scan specifies |
| Evaluator.CountInRangeConflicts | GASeatingProblem/Seating/LayoutEvaluator.cs:425-458 | a fresh array of one counter per desk, equal to `InRangeConflicts` |
| Evaluator.CountEmployeeOccurences | GASeatingProblem/Seating/LayoutEvaluator.cs:468-477 | a fresh array with one entry per employee, entry e the number of slots holding e |
| Evaluator.Occurrences | GASeatingProblem/Seating/LayoutEvaluator.cs:468-477 | one count per employee; `OccurrencesSum` and `OccurrencesAtMostOne` state what the counts mean, and `CountEmployeeOccurences` is proved equal to it |
| Evaluator.OccurrencesSum | GASeatingProblem/Seating/LayoutEvaluator.cs:468-477 | the occurrence counts add up to the layout's length |
| Evaluator.OccurrencesAtMostOne | GASeatingProblem/Seating/LayoutEvaluator.cs:460-477 | a layout repeats nobody exactly when no count exceeds one |
| Evaluator.EmptyDesks | GASeatingProblem/Seating/LayoutEvaluator.cs:31-40 | the number of team-0 placeholders, at most the number of employees |
| Evaluator.EmptyDesksExtremes | GASeatingProblem/Seating/LayoutEvaluator.cs:31-40 | all employees placeholders gives all of them, none gives 0 |
| Evaluator.ConflictCapacity | GASeatingProblem/Seating/LayoutEvaluator.cs:85-88 | the sum of the occupants' conflict-list sizes is never negative |
| Evaluator.WrongTeamCount | GASeatingProblem/Seating/LayoutEvaluator.cs:90-95 | the wrong-team desks among the first k are between 0 and k |
| Evaluator.PriorMatches | GASeatingProblem/Seating/LayoutEvaluator.cs:97-102 | the kept seats among the first k desks are between 0 and k |
| Evaluator.PriorMatchesBounded | GASeatingProblem/Seating/LayoutEvaluator.cs:97-102 | kept seats never exceed the desks whose target entry is non-negative |
| Evaluator.PreviousSeatRatio | GASeatingProblem/Seating/LayoutEvaluator.cs:112-115 | kept seats over carried-over employees, 1 when nobody carries over; no contract of its own: `PreviousSeatRatioBounded` bounds it |
| Evaluator.PreviousSeatRatioBounded | GASeatingProblem/Seating/LayoutEvaluator.cs:112-115 | with the carry-over count of `LoadPriorSeating`, the previous-seat ratio lies in [0, 1] |
| Evaluator.FitnessRatios | GASeatingProblem/Seating/LayoutEvaluator.cs:106-115 | the ratios exist exactly when some occupant has a conflict and the desk count differs from the number of team-0 employees |
| Evaluator.ConflictRatioZero | GASeatingProblem/Seating/LayoutEvaluator.cs:106 | the conflict ratio is non-negative and zero exactly when no pair matches |
| Evaluator.GraphIsSymmetric | GASeatingProblem/Seating/Person.cs:22-39 | the lists built by `TryAddConflict` (a valid graph) repeat no entry and are symmetric, as the evaluator's bound needs |
| Evaluator.OccSymmetric | GASeatingProblem/Seating/Person.cs:36-37 | with symmetric lists, b occurs in a's list exactly as often as a in b's |
| Evaluator.OtherHitsBound | GASeatingProblem/Seating/LayoutEvaluator.cs:438-451 | occupants of distinct desks, all different, match a conflict list at most as often as it has entries |
| Evaluator.CounterWithinList | GASeatingProblem/Seating/LayoutEvaluator.cs:425-458 | with symmetric lists and nobody seated twice, each desk's counter is at most the length of its occupant's conflict list |
| Evaluator.ConflictRatioProper | GASeatingProblem/Seating/LayoutEvaluator.cs:85-106 | under the same conditions the counters sum to at most `maxConflicts`, so the conflict ratio of a real layout lies in [0, 1] |
| Evaluator.Score | GASeatingProblem/Seating/LayoutEvaluator.cs:124-130 | the bonus of 10 for a conflict-free layout and the 2:1 weighting; no contract of its own: `ConflictFreeOutranks` and `ScoreMonotone` state what it ranks |
| Evaluator.ConflictFreeOutranks | GASeatingProblem/Seating/LayoutEvaluator.cs:124-130 | with ratios in [0, 1], a conflict-free layout scores between 10 and 11 and any layout with conflicts below 2 |
| Evaluator.ScoreMonotone | GASeatingProblem/Seating/LayoutEvaluator.cs:124-130 | at equal conflict ratio, fewer wrong-team seats and more kept seats never lower the score |
| Evaluator.Fitness | GASeatingProblem/Seating/LayoutEvaluator.cs:71-131 | `Score` of `FitnessRatios`, none where a ratio's denominator is zero; no contract of its own: `GetFitness` is proved equal to it, and `FitnessRatios`, `ConflictRatioProper` and `ConflictFreeOutranks` state its parts |
| Evaluator.GetFitness | GASeatingProblem/Seating/LayoutEvaluator.cs:71-131 | the loop's tallies are the capacity, the counter sum, the wrong-team count and the kept seats, and the result is `Fitness` of them (None where a denominator is 0) |
| Evaluator.FirstMatch | GASeatingProblem/Seating/LayoutEvaluator.cs:311-324 | the first index from i on with the same name and team, or −1 exactly when there is none |
| Evaluator.MapPrior | GASeatingProblem/Seating/LayoutEvaluator.cs:308-327 | a prior employee maps to today's first employee with the same name and team; the result is −1 exactly when there is no such employee or the first one is an `EMPTY DESK` placeholder |
| Evaluator.Remap | GASeatingProblem/Seating/LayoutEvaluator.cs:331-344 | the remapped layout keeps the prior layout's length |
| Evaluator.CountNonNegativeIsTargeted | GASeatingProblem/Seating/LayoutEvaluator.cs:346 | the carry-over count is the number of desks with a prior occupant, as `GetFitness` counts them |
| Evaluator.PriorToToday | GASeatingProblem/Seating/LayoutEvaluator.cs:305-327 | the index map has one entry per prior employee, and each entry is that employee's `MapPrior` index in today's roster |
| Evaluator.LoadPriorSeating | GASeatingProblem/Seating/LayoutEvaluator.cs:296-349 | the target layout maps each desk's prior occupant through `MapPrior`, and the carry-over count is its number of non-negative entries |
| Evaluator.RemapSameRoster | GASeatingProblem/Seating/LayoutEvaluator.cs:308-344 | on an unchanged roster with unique real (name, team) pairs, real employees map to themselves and placeholders to −1 |
| Evaluator.RemapSwappedRoster | GASeatingProblem/Seating/LayoutEvaluator.cs:302-344 | two employees who swapped indices overnight map to each other's new index |
| Evaluator.RemapReindexedRoster | GASeatingProblem/Seating/LayoutEvaluator.cs:302-344 | when every prior employee is today's employee pi[j] (or −1 for the absent and empty desks) and today's real name-and-team pairs are unique, each desk's prior occupant is remapped to pi of it |
| Chromosome.Child1 | GASeatingProblem/Seating/LayoutChromosome.cs:83-95 | child 1 has parent 1's length |
| Chromosome.Child2 | GASeatingProblem/Seating/LayoutChromosome.cs:83-95 | child 2 has parent 1's length |
| Chromosome.OffspringSlotwise | GASeatingProblem/Seating/LayoutChromosome.cs:83-95 | at every slot the two children hold the two parents' entries, one each |
| Chromosome.OffspringConservesUpTo | GASeatingProblem/Seating/LayoutChromosome.cs:83-95 | over any prefix the children together hold the parents' entries |
| Chromosome.OffspringConserves | GASeatingProblem/Seating/LayoutChromosome.cs:83-95 | the children together hold exactly parent 1 and parent 1's length of the partner |
| Chromosome.LeftRightShape | GASeatingProblem/Seating/LayoutChromosome.cs:63-66 | the cut lies in [1, n − 1); child 1 is parent 1's head and the partner's tail, child 2 the reverse |
| Chromosome.CentreChunkShape | GASeatingProblem/Seating/LayoutChromosome.cs:67-71 | 1 <= first < second < n, and exactly the chunk [first, second) is exchanged |
| Chromosome.CloneShape | GASeatingProblem/Seating/LayoutChromosome.cs:75-80 | every slot is exchanged: child 1 is the partner, child 2 is parent 1 |
| Chromosome.CrossoverIllustrations | GASeatingProblem/Seating/CrossoverType.cs:11-12 | for the enumeration's parents and every draw the `Next` calls can return: LeftRight gives the illustrated children when it cuts after slot 1 and [1, 2, 7, 8], [5, 6, 3, 4] after slot 2; CentreChunk always gives [1, 6, 3, 4], [5, 2, 7, 8], never the illustrated pair |
| Chromosome.ApplySwaps | GASeatingProblem/Seating/LayoutChromosome.cs:122-130 | the any-range swaps keep the length |
| Chromosome.ApplySwapsPermutes | GASeatingProblem/Seating/LayoutChromosome.cs:122-130 | the any-range swaps keep the multiset |
| Chromosome.IdentitySwaps | GASeatingProblem/Seating/LayoutChromosome.cs:122-130 | swaps that draw the same index twice change nothing |
| Chromosome.DrawsGiveFits | GASeatingProblem/Seating/LayoutChromosome.cs:110-152 | draws in the ranges of `Mutate`'s `Next` calls index inside the layout |
| Chromosome.Shifts | GASeatingProblem/Seating/LayoutChromosome.cs:135-158 | the conflict-driven pass keeps the length |
| Chromosome.ShiftsPermute | GASeatingProblem/Seating/LayoutChromosome.cs:135-158 | the conflict-driven pass keeps the multiset |
| Chromosome.QuietShifts | GASeatingProblem/Seating/LayoutChromosome.cs:135-158 | no counter above 1 and no mini-shuffle leave the layout as it is |
| Chromosome.Swapped | GASeatingProblem/Seating/LayoutChromosome.cs:115-130 | the rare reshuffle and the any-range swaps keep length and multiset |
| Chromosome.Mutated | GASeatingProblem/Seating/LayoutChromosome.cs:106-161 | a mutation keeps the length |
| Chromosome.MutatedPermutes | GASeatingProblem/Seating/LayoutChromosome.cs:106-161 | a mutation keeps the multiset, keeps the layout readable by the evaluator and introduces no duplicate |
| Chromosome.QuietMutation | GASeatingProblem/Seating/LayoutChromosome.cs:106-161 | without reshuffle, mini-shuffle, real swaps or a desk counted twice, a mutation changes nothing |
| Chromosome.Unused | GASeatingProblem/Seating/LayoutChromosome.cs:170-175 | the list holds exactly the employees of count zero, once each |
| Chromosome.Moved | GASeatingProblem/Seating/LayoutChromosome.cs:191-192 | the count update keeps one count per employee |
| Chromosome.RepairFrom | GASeatingProblem/Seating/LayoutChromosome.cs:180-193 | the repair loop keeps the length |
| Chromosome.ShuffledUnusedBelow | GASeatingProblem/Seating/LayoutChromosome.cs:178 | the shuffled unused list still names only employees |
| Chromosome.Repaired | GASeatingProblem/Seating/LayoutChromosome.cs:167-194 | the repair keeps the length |
| Chromosome.Unseen | GASeatingProblem/Seating/LayoutChromosome.cs:187 | a layout no longer than the roster that repeats somebody leaves somebody out, so an unused employee exists |
| Chromosome.RepairSkip | GASeatingProblem/Seating/LayoutChromosome.cs:185 | a slot whose occupant is counted at most once is kept and the loop's state carries over |
| Chromosome.RepairReplace | GASeatingProblem/Seating/LayoutChromosome.cs:187-192 | a repeated occupant meets a non-empty unused list, and the replacement keeps the loop's state |
| Chromosome.RepairFromEnds | GASeatingProblem/Seating/LayoutChromosome.cs:180-193 | the loop ends in a state its invariant describes |
| Chromosome.RepairStartsSafe | GASeatingProblem/Seating/LayoutChromosome.cs:180-193 | on a layout no longer than the roster the loop never runs past the unused list |
| Chromosome.RepairDone | GASeatingProblem/Seating/LayoutChromosome.cs:180-193 | the finished loop has no repeats, keeps everyone present, keeps unique slots, and places only absent people |
| Chromosome.RepairedMeaning | GASeatingProblem/Seating/LayoutChromosome.cs:167-194 | the repaired layout repeats nobody, names only employees, keeps everyone present, keeps every slot whose occupant was unique, and puts only previously absent people in the others |
| Chromosome.RepairedKeepsDuplicateFree | GASeatingProblem/Seating/LayoutChromosome.cs:167-194 | a layout without repeats is left as it is |
| Chromosome.LayoutChromosome.constructor | GASeatingProblem/Seating/LayoutChromosome.cs:23-26 | a new chromosome has an empty layout and the unset fitness −1 |
| Chromosome.LayoutChromosome.InitialiseFromRawInputs | GASeatingProblem/Seating/LayoutChromosome.cs:42-49 | the layout becomes a copy of the inputs |
| Chromosome.LayoutChromosome.SetFitness | GASeatingProblem/Seating/LayoutChromosome.cs:196-201 | a negative value is `NegativeFitness` and changes nothing; otherwise it is stored |
| Chromosome.LayoutChromosome.GetFitness | GASeatingProblem/Seating/LayoutChromosome.cs:203-208 | a negative (unset) fitness is `UnsetFitness`; otherwise the stored value |
| Chromosome.LayoutChromosome.CrossoverWith | GASeatingProblem/Seating/LayoutChromosome.cs:51-104 | reversed `Next` ranges for this length are the only error; otherwise two fresh, distinct, unscored children holding `Child1` and `Child2` |
| Chromosome.LayoutChromosome.SwapAnyRange | GASeatingProblem/Seating/LayoutChromosome.cs:122-130 | the layout becomes the swaps applied in order |
| Chromosome.LayoutChromosome.ShiftConflicted | GASeatingProblem/Seating/LayoutChromosome.cs:133-158 | the counters are taken once, before the pass, and the layout becomes the conflict-driven pass over them |
| Chromosome.LayoutChromosome.Mutate | GASeatingProblem/Seating/LayoutChromosome.cs:106-161 | an empty layout with a positive swap count is `IndexOutOfRange` and unchanged; otherwise the layout becomes `Mutated` of the old one |
| Chromosome.LayoutChromosome.UnusedEmployees | GASeatingProblem/Seating/LayoutChromosome.cs:169-175 | exactly the employees whose count is zero, once each (`Unused`) |
| Chromosome.LayoutChromosome.ReplaceDuplicates | GASeatingProblem/Seating/LayoutChromosome.cs:180-193 | the layout becomes the repair loop over the counts and the unused list |
| Chromosome.LayoutChromosome.SwapOutDuplicates | GASeatingProblem/Seating/LayoutChromosome.cs:167-194 | the layout becomes `Repaired` of the old one; it repeats nobody and keeps everyone present |
| Population.Tally | GASeatingProblem/Seating/LayoutPopulation.cs:136-147 | the position that last raised the maximum lies among the scores seen |
| Population.RunningBounds | GASeatingProblem/Seating/LayoutPopulation.cs:136-147 | the total is the sum of the scores; the maximum bounds them and the start value; the minimum lies below them and the start value; the fittest holds the maximum, beats the start value and every earlier score strictly (ties keep the first); with no fittest the maximum never moved |
| Population.Accepted | GASeatingProblem/Seating/LayoutPopulation.cs:136-139 | the scores stored before the first negative one, which `SetFitness` refuses |
| Population.Pick | GASeatingProblem/Seating/LayoutPopulation.cs:108-120 | a chosen position lies inside the population |
| Population.PickMeaning | GASeatingProblem/Seating/LayoutPopulation.cs:104-121 | with every fitness set, the roulette picks the first chromosome whose prefix sum reaches the bound, or the last one when none does |
| Population.RouletteSelects | GASeatingProblem/Seating/LayoutPopulation.cs:106-117 | a bound in [0, total) falls in the chosen chromosome's slice of the prefix sums, and a positive bound never picks a zero fitness |
| Population.ScaleBelow | GASeatingProblem/Seating/LayoutPopulation.cs:108 | `NextDouble() * totalFitness` lies in [0, total) |
| Population.ZeroBoundPicksFirst | GASeatingProblem/Seating/LayoutPopulation.cs:113-120 | a zero bound picks the first chromosome |
| Population.Rounds | GASeatingProblem/Seating/LayoutPopulation.cs:59-61 | every round's reuse of the shuffled list keeps its length and multiset |
| Population.RandomLayoutMeaning | GASeatingProblem/Seating/LayoutPopulation.cs:59-65 | a random layout names only listed employees and is duplicate-free when the list is |
| Population.RandomLayouts | GASeatingProblem/Seating/LayoutPopulation.cs:59-65 | one layout per round |
| Population.Unaccounted | GASeatingProblem/Seating/LayoutPopulation.cs:73-79 | exactly the listed employees the target does not seat |
| Population.UnaccountedNoDuplicates | GASeatingProblem/Seating/LayoutPopulation.cs:73-79 | a duplicate-free employee list gives a duplicate-free unaccounted list |
| Population.Filled | GASeatingProblem/Seating/LayoutPopulation.cs:87-96 | the filled layout keeps the target's length |
| Population.FilledMeaning | GASeatingProblem/Seating/LayoutPopulation.cs:87-96 | seated slots are copied; with no −1 in the list no vacancy remains; with distinct seated entries and a duplicate-free list of absent employees nobody is seated twice |
| Population.HistoricLayouts | GASeatingProblem/Seating/LayoutPopulation.cs:81-101 | one layout per round |
| Population.OffspringBelow | GASeatingProblem/Seating/LayoutPopulation.cs:38 | crossing layouts of employees gives layouts of employees |
| Population.CrossedAndRepaired | GASeatingProblem/Seating/LayoutPopulation.cs:38-42 | crossed and repaired children keep parent 1's length, can be parents again and are duplicate-free |
| Population.Offspring | GASeatingProblem/Seating/LayoutPopulation.cs:38-45 | after mutation too the children keep parent 1's length, can be parents again and are duplicate-free |
| Population.OperatorsRealise | GASeatingProblem/Seating/LayoutPopulation.cs:38-45 | the source's operators form a breeder that realises `Offspring` |
| Population.RealisedSound | GASeatingProblem/Seating/LayoutPopulation.cs:38-45 | any breeder realising the operators is sound on a population of parents |
| Population.Pass | GASeatingProblem/Seating/LayoutPopulation.cs:31-50 | one pass of the generation loop; no contract of its own: `PassMeaning` states what it adds and `LayoutPopulation.RunPass` is proved equal to it |
| Population.Generation | GASeatingProblem/Seating/LayoutPopulation.cs:29-52 | the generation loop until there are as many children as parents; no contract of its own: `GenerationShape`, `GenerationBred`, `GenerationKeeps` and the two `NeverBreeds` lemmas state it, and `GetNextGeneration` is proved equal to it |
| Population.PassMeaning | GASeatingProblem/Seating/LayoutPopulation.cs:31-50 | a successful pass either adds nothing or adds the two children bred from two different parents |
| Population.GenerationShape | GASeatingProblem/Seating/LayoutPopulation.cs:29-51 | a finished generation has an even size between |P| and |P| + 1 (exactly |P| when |P| is even), extends the children it started with, and all its children can be parents and are duplicate-free |
| Population.GenerationBred | GASeatingProblem/Seating/LayoutPopulation.cs:29-51 | every added pair was bred by one pass from two different parents |
| Population.GenerationKeeps | GASeatingProblem/Seating/LayoutPopulation.cs:29-51 | the loop only ever appends |
| Population.LoneChromosomeNeverBreeds | GASeatingProblem/Seating/LayoutPopulation.cs:29-36 | with a single chromosome every pass is skipped, so the loop never finishes |
| Population.ZeroTotalNeverBreeds | GASeatingProblem/Seating/LayoutPopulation.cs:29-36 | with a total fitness of zero both picks are the first chromosome, every pass is skipped, and a generation short of children never finishes |
| Population.ScoreLayouts | GASeatingProblem/Seating/LayoutPopulation.cs:136-147 | the loop stores each score in its chromosome until the first negative one and keeps the `Tally` statistics and the fittest chromosome; layouts are unchanged |
| Population.CrossAndRepair | GASeatingProblem/Seating/LayoutPopulation.cs:38-42 | two fresh, distinct children holding `CrossedAndRepaired` of the parents, or its error; the parents are unchanged |
| Population.Breed | GASeatingProblem/Seating/LayoutPopulation.cs:38-45 | two fresh, distinct, unscored children holding the breeder's result, or its error; the parents are unchanged |
| Population.UnaccountedFor | GASeatingProblem/Seating/LayoutPopulation.cs:72-79 | the loop collects `Unaccounted` |
| Population.FillVacancies | GASeatingProblem/Seating/LayoutPopulation.cs:87-96 | more vacancies than unaccounted-for employees is `IndexOutOfRange`; otherwise the result is `Filled` |
| Population.LayoutPopulation.constructor | GASeatingProblem/Seating/LayoutPopulation.cs:10-16 | no layouts, no fittest, max = double.MinValue, min = double.MaxValue, totals zero |
| Population.LayoutPopulation.AddChromosome | GASeatingProblem/Seating/LayoutPopulation.cs:18-21 | appends exactly one chromosome; a new one keeps the population free of repeated objects |
| Population.LayoutPopulation.AddPair | GASeatingProblem/Seating/LayoutPopulation.cs:47-48 | appends both children and their layouts |
| Population.LayoutPopulation.EvaluateCurrentPopulation | GASeatingProblem/Seating/LayoutPopulation.cs:131-150 | scores are stored until the first negative one (`NegativeFitness`). The total, max, min and fittest follow `Tally` from the old statistics, and layouts are unchanged. The average is total / count: `None` for an empty population, unchanged after an error |
| Population.LayoutPopulation.GetWeightedOffspring | GASeatingProblem/Seating/LayoutPopulation.cs:104-121 | the chromosome `Pick` chooses with bound `NextDouble() * totalFitness`, or its error |
| Population.LayoutPopulation.ChooseParents | GASeatingProblem/Seating/LayoutPopulation.cs:31-32 | the two roulette picks, or the first error; the same object twice exactly when both picks name the same position |
| Population.LayoutPopulation.RunPass | GASeatingProblem/Seating/LayoutPopulation.cs:31-50 | the new population's layouts become `Pass` of the old ones; only fresh unscored children are appended, two at a time |
| Population.LayoutPopulation.RandomRound | GASeatingProblem/Seating/LayoutPopulation.cs:61-64 | the list is shuffled in place; a list shorter than 146 is `IndexOutOfRange`, otherwise a fresh chromosome of its first 146 entries is appended |
| Population.LayoutPopulation.CreateRandomPopulation | GASeatingProblem/Seating/LayoutPopulation.cs:56-66 | with a positive size, a list shorter than 146 fails after one shuffle with nothing added; otherwise the appended layouts are `RandomLayouts` and the list is the result of all rounds |
| Population.LayoutPopulation.HistoricRound | GASeatingProblem/Seating/LayoutPopulation.cs:84-100 | the list is shuffled in place; too few entries for the vacancies is `IndexOutOfRange`, otherwise a fresh chromosome of the filled target is appended |
| Population.LayoutPopulation.HistoricRounds | GASeatingProblem/Seating/LayoutPopulation.cs:81-101 | the appended layouts are `HistoricLayouts` of the list, or `IndexOutOfRange` with nothing added |
| Population.LayoutPopulation.CreateHistoricallySimilarPopulation | GASeatingProblem/Seating/LayoutPopulation.cs:68-102 | with a positive size: `IndexOutOfRange` exactly when the target has more vacancies than unaccounted-for employees; otherwise the appended layouts are the target filled from each round's shuffle of them |
| Population.LayoutPopulation.GetNextGeneration | GASeatingProblem/Seating/LayoutPopulation.cs:23-54 | a fresh population whose layouts are `Generation` of this one's, every child fresh and unscored, or the generation's error |

## Left out

- **User interface and files.** The WPF window, file dialogs, the Excel
  reading and the JSON read and write of the prior layout are user interface
  and file input/output. `LoadPriorSeating` takes the deserialised prior
  employees and raw layout as parameters.
- **Threads and the global best.** The eight-thread run and the update of the
  global best chromosome are concurrency.
- **Random numbers.** `System.Random` is a library. Its draws are parameters,
  each bounded as its `Next` call is. Two consequences:
  - the shared fallback generator of `YatesShuffle` when no generator is
    passed is not modelled;
  - the roulette's two draws and each operator's draws come in an `Attempt`
    record, and running out of attempts is `OutOfDraws`.
- **Rounding.** The source divides doubles; the model uses exact reals.
  Rounding is not modelled. A zero denominator (NaN or infinity in the source)
  is `None`.
- **`IsValid`** is not modelled: it only throws NotImplementedException.
  `InitialiseFromStrings` is not modelled either: it is string parsing.
  `EnumerateChromosomes` only yields the layouts.
- **`GetRawElements`** returns the live list. The model reads `personIDs`
  directly, and the aliasing it would allow is not modelled.
- **The `EmptyDesks` cache** (`_emptyDesks`) is not modelled: the count is
  recomputed, which gives the same value since the employees never change
  after loading.
- **Evaluator scores** are a parameter of `EvaluateCurrentPopulation`:
  `fitnesses[k]` is the evaluator's score of chromosome k. The statistics
  fields other than those listed in the table are display only.
- **Breeder** (`Population.Breed`, `LayoutPopulation.RunPass`,
  `GetNextGeneration`): the function value standing for the operators is a
  ghost parameter. `Realises` requires it to agree with `Offspring`, and
  `Population.OperatorsRealise` shows that the operators themselves qualify.
- **Checks and warnings of `LoadPriorSeating`.** The throw when today's
  employees were not loaded is not modelled: today's employees are a
  parameter. The two console warnings (an index that differs from its
  position, a prior employee without a partner) are output only.
- **Wrong-team ratio bound.** `Evaluator.ConflictRatioProper` bounds the
  conflict ratio of a real layout to [0, 1]. The matching bound for the
  wrong-team ratio is not proved: it needs a counting argument over the
  distinct team members seated, which the model does not carry.
- **Mutation settings.** The user interface sets the three mutation constants
  from one text box. The model takes a `MutationConfig`, with
  `DefaultMutation` as shipped (1, 3, 30).
- Desks.Desk.constructor: leaves the index at −1 for a row outside the floor
  instead of throwing from the constructor. `Desks.NewDesk` returns that case
  as `InvalidGeometry`.
- Desks.Desk.GetWestSideIndex and Desks.Desk.GetEastSideIndex: require a row
  of their own zone. Their fall-through throws cannot be reached from
  `GetIndex`, the only caller.
- Population.LayoutPopulation.CreateRandomPopulation,
  Population.LayoutPopulation.HistoricRounds and
  Population.LayoutPopulation.CreateHistoricallySimilarPopulation: require one
  shuffle's draws per round to be supplied.
- Evaluator.GetFitness, Evaluator.CountInRangeConflicts and
  Evaluator.CountEmployeeOccurences: require the inputs the source indexes
  without a check, and do not model its IndexOutOfRangeException there.
  `GetFitness` and `CountInRangeConflicts` require a layout at least as long
  as the desk list whose first slots name employees (`Seatable`); the source
  throws at LayoutEvaluator.cs:87, 434 and 442 otherwise. `GetFitness` also
  requires a prior target at least as long as the desk list whose
  non-negative entries name employees (`TargetFits`); a target from a day with
  fewer desks or more employees makes the source throw at
  LayoutEvaluator.cs:98 and 101. `CountEmployeeOccurences` requires every
  entry to name an employee (`AllBelow`); the source throws at
  LayoutEvaluator.cs:473 otherwise.
- Chromosome.LayoutChromosome.CrossoverWith: requires a partner at least as
  long as this chromosome and draws inside their ranges. The source would
  index past the partner's end or throw in `Next`. `Population.CrossedAndRepaired`
  returns those cases as errors.
- Chromosome.LayoutChromosome.Mutate: requires a layout that covers every
  desk and names only employees, mutation settings with min <= max, and draws
  inside their ranges. Otherwise the evaluator's scan or `Next` would throw.
- Chromosome.LayoutChromosome.SwapOutDuplicates: requires a layout no longer
  than the employee list, with entries that are employee indices. A longer
  layout could run the source past the end of its unused list.
- Population.LayoutPopulation.EvaluateCurrentPopulation: the fittest
  chromosome is the first one with the strictly greatest score.
  `maxFitness`/`minFitness` carry over from earlier calls, as in the source.
  An empty population's NaN average is `None`.
- Evaluator.Remap: its own contract only states the length. What each entry
  means is stated by `Evaluator.MapPrior`, `Evaluator.RemapSameRoster` and
  `Evaluator.LoadPriorSeating`.

## Findings

| source | as written | input that shows it | evidently intended | confidence | as-written member | corrected member |
|---|---|---|---|---|---|---|
| GASeatingProblem/Seating/Desk.cs:121-123 | the west branch of `countSeperatorsBetweenDesks` is taken for rows `< 30`, so a desk in row 30 (a west row by `GetIndex` and the seat table) is measured by the east rule | rows 29 and 30: 37 separators from row 29, 0 from row 30; row 30 to row 25 gives 2 where the same gap from 28 to 23 gives 1 | the west branch covers rows 1..30 (`<= 30`), making the count symmetric within the west zone and invariant under a shift by one row pair | not executed | Desks.SeparatorsAsWrittenAsymmetric | Desks.SeparatorsSymmetricWest |
