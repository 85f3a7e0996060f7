# Genetic algorithm for the 0/1 knapsack problem, modelled in Dafny

The original program (`main.py`) searches for a subset of items that is as valuable as possible
without exceeding a weight limit. Each candidate is a *genome*: one gene (0 or 1) per item. Its
*fitness* is the total value of the selected items, or 0 as soon as their running weight passes the
limit. `run_evolution` repeats generations. Each generation it sorts the population best first,
stops once the best genome reaches the fitness limit, and otherwise keeps the two best genomes
(elitism). It refills the rest of the population with children: two parents are selected, crossed
over at one split point, and each child is mutated.

The project models this core:

- `errors.dfy` (`Errors`): the exceptions the code raises (`ValueError`, `IndexError`,
  `UnboundLocalError`), one constructor per cause, and a `Result` type that carries them.
- `genomes.dfy` (`Genomes`): genomes, populations and the shape of the random generators.
- `knapsack.dfy` (`Knapsack`): `fitness`, as a loop proved against a definition by prefix sums.
- `crossover.dfy` (`Crossover`): `single_point_crossover`, as a function.
- `mutation.dfy` (`Mutation`): `mutation`, as an in-place loop over an `array<int>`.
- `ranking.dfy` (`Ranking`): Python's `sorted(..., key=fitness, reverse=True)`, as a stable insertion sort.
- `evolution.dfy` (`Evolution`): `selection_pair` and `run_evolution`. The driver is a method with
  the source's two nested loops. It is proved equal to the function `Evolve`, and `Evolve`'s
  properties are proved as lemmas.
- `report.dfy` (`Report`): `genome_to_things`.
- `aliasing.dfy` (`Aliasing`): one breeding step as written, over shared list objects (see Findings).

Randomness is an input. The crossover split and the mutation rounds are parameters of
`SinglePointCrossover` and `Mutate`. The driver takes an oracle that gives the raw draws of
breeding iteration `j` of generation `i`: the two selected indices, the split, and each child's
mutated position and flip decision. `SplitPoint` and `RoundOf` map the raw draws onto the ranges
`randint` and `randrange` draw from, and `DrawsCoverRanges` shows every value in those ranges can
be drawn. The driver uses the knapsack fitness bound to a `Problem`, as the script does with
`partial`. It also uses the default operators, with mutation's default of one round.

Where the code's behaviour is surprising, the model follows the code:

- A generation limit of 0 or less is not a clean stop. The loop variable is never bound, so the
  return fails (`UnboundGeneration`).
- An empty population fails at `population[0]` (`EmptyPopulation`) when at least one generation runs.
- The returned index is that of the last generation run, at most `generation_limit - 1`, not the
  number of generations.
- With no things, every genome scores 0, so a fitness limit of 0 or less stops the run in generation 0.
  With a higher limit, populations of fewer than 4 genomes never breed and run out the generations. A
  generation that breeds fails at its first breeding iteration, in the code and in the model alike.
  The model reports the failure as `randrange(0)` on the empty child; the code raises earlier in that
  iteration, in `random.choices` (see Left out).

## Model

| member | source | states |
|---|---|---|
| `Genomes.GenerateGenome` | main.py:44-45 | the genome has the requested length, every gene is 0 or 1, and gene i is 1 exactly when its draw is |
| `Genomes.GeneratePopulation` | main.py:48-49 | `size` genomes, all of `genome_length` genes, all binary |
| `Knapsack.Fitness` | main.py:52-66 | fails with a length mismatch exactly when genome and things differ in length; otherwise returns `FitnessOf`: 0 if the running weight passes the limit right after some selected thing is added, else the total value of the selected things |
| `Knapsack.SelectedValueBounds` | main.py:60-63 | with non-negative values, the selected value lies between 0 and the total value of the same prefix of the catalogue |
| `Knapsack.FitnessBounds` | main.py:57-66 | with non-negative values, a fitness is between 0 and the total value of all things |
| `Knapsack.SelectedWeightMonotone` | main.py:60-62 | with non-negative weights, the running weight never decreases along the catalogue |
| `Knapsack.HeavySelectionOverflows` | main.py:60-65 | with a non-negative limit, a selection whose total weight exceeds the limit has a selected thing after which the running weight first exceeds it |
| `Knapsack.FitnessIsFeasibilityPenalty` | main.py:57-66 | with non-negative weights and limit, the early exit equals the harsh penalty on the whole selection: 0 if its total weight exceeds the limit, its total value otherwise |
| `Report.SelectedIndices` | main.py:160-163 | lists exactly the positions whose gene is 1, each in range, in strictly increasing order |
| `Report.GenomeToThings` | main.py:159-164 | fails exactly when the genome is shorter than the catalogue; otherwise returns the names collected along the whole catalogue (`Names`) |
| `Report.NamesOfSelected` | main.py:160-163 | the collected names are, in catalogue order, the names of exactly the things at the positions whose gene is 1 |
| `Crossover.SinglePointCrossover` | main.py:77-86 | fails exactly when the parents differ in length; returns the parents unchanged below length 2; otherwise both children have the parents' length and position i of the first child is `a[i]` below the split and `b[i]` from it, the reverse for the second |
| `Crossover.CrossoverUndone` | main.py:85-86 | crossing the two children again at the same split gives back the two parents |
| `Crossover.CrossoverKeepsBinary` | main.py:85-86 | binary parents give binary children |
| `Crossover.CrossoverKeepsGenes` | main.py:85-86 | together the children hold exactly the parents' genes (multiset of both) |
| `Mutation.Flip` | main.py:94 | `abs(x - 1)` swaps 0 and 1 and is never negative |
| `Mutation.Mutated` | main.py:90-94 | the rounds applied in order keep the genome's length |
| `Mutation.Mutate` | main.py:89-95 | in place: fails on an empty genome when there is a round, leaving it as it was; otherwise the array ends as `Mutated` of its old contents |
| `Mutation.MutatedKeepsBinary` | main.py:94 | a binary genome stays binary, and each position ends either as it was or as its flip |
| `Mutation.MutatedChangesOnlyChosen` | main.py:90-94 | only positions drawn by some round can change |
| `Mutation.ChosenBound` | main.py:90-91 | `num` rounds draw at most `num` distinct positions |
| `Mutation.MutationChangesAtMostNum` | main.py:89-95 | a mutation of `num` rounds changes at most `num` positions |
| `Mutation.NoFlipNoChange` | main.py:92-94 | rounds whose random draw exceeds the probability (no flip) leave the genome unchanged |
| `Ranking.Insert` | main.py:114-118 | inserting into a population sorted best first keeps it sorted and adds exactly the one genome |
| `Ranking.SortByFitness` | main.py:114-118 | the result is in non-increasing fitness order and a permutation of the population |
| `Ranking.SortKeepsMembers` | main.py:114-118 | sorting keeps the size and exactly the members |
| `Ranking.SortedHeadIsBest` | main.py:114-120 | the first genome of the sorted population scores at least as well as every member |
| `Ranking.SortIdempotent` | main.py:138-142 | sorting an already sorted population changes nothing, so the final sort after a stop returns the tested population |
| `Evolution.SelectionPair` | main.py:69-74 | both selected parents are members of the population |
| `Evolution.SplitPoint` | main.py:85 | for a length of at least 2, the split lies in [1, length - 1] |
| `Evolution.RoundOf` | main.py:91 | for a non-empty genome, the mutated position is inside it |
| `Evolution.Elite` | main.py:124 | `population[0:2]`: the first two genomes of the sorted population, or all of them if there are fewer |
| `Evolution.BreedCount` | main.py:128 | the number of breeding iterations, `int(len(population) / 2) - 1`, with a negative count running none |
| `Evolution.Bred` | main.py:124-133 | the next generation after the first j breeding iterations: the elite, then each iteration's two mutated children, or the first iteration's error |
| `Evolution.NextGeneration` | main.py:124-133 | the whole next generation: `Bred` after `BreedCount` iterations |
| `Evolution.Generations` | main.py:112-136 | the generation loop from generation i: out of generations, a stop at the fitness limit after the sort, or one bred generation and the rest of the loop; fails in fitness on a genome of the wrong length and at `population[0]` on an empty population |
| `Evolution.DrawsCoverRanges` | main.py:85-91 | every split in [1, length - 1] and every position below the length is the image of some raw draw |
| `Evolution.MutateChild` | main.py:131-132 | mutating a fresh copy of a child in place gives `MutationResult` of that child |
| `Evolution.BreedPair` | main.py:129-133 | one breeding iteration (select, cross over, mutate both children) gives `Offspring` of its draws |
| `Evolution.RunEvolution` | main.py:99-144 | the two nested loops return exactly `Evolve`: the generation loop, the final sort, and each error the code raises, in the order it raises them |
| `Evolution.BredErrorSticks` | main.py:128-133 | once a breeding iteration fails, the whole generation fails with that error |
| `Evolution.OffspringShape` | main.py:129-132 | children have the common length of the population's genomes, and binary parents give binary children |
| `Evolution.OffspringSucceeds` | main.py:129-132 | parents of one common, non-zero length always breed, given a selection that always returns two members (see Left out) |
| `Evolution.BredShape` | main.py:124-133 | after j iterations the next generation is the elite, unchanged, followed by 2 * j children of the parents' length, binary if the parents are |
| `Evolution.BredSucceeds` | main.py:128-133 | a population of one common, non-zero genome length always breeds, given a selection that always returns two members (see Left out) |
| `Evolution.NextGenerationKeepsElite` | main.py:123-133 | for n >= 2 the next generation starts with the two best genomes of the sorted population, unchanged, and has 2 * (n / 2) members |
| `Evolution.GenerationsStopRule` | main.py:112-121 | the loop stops only in a generation below the limit whose sorted best genome reaches the fitness limit, and ends with a non-empty, well-formed population |
| `Evolution.GenerationsSize` | main.py:124-136 | the loop ends with n or 2 * (n / 2) genomes, starting from n |
| `Evolution.GenerationsKeepBinary` | main.py:112-136 | a binary population stays binary through every generation |
| `Evolution.GenerationsKeepBest` | main.py:112-136 | every initial genome is matched or beaten by some genome of the final population |
| `Evolution.GenerationsSucceed` | main.py:112-136 | with well-formed genomes, a non-empty population and at least one thing, the loop never fails, given a selection that always returns two members (see Left out) |
| `Evolution.OffspringWithoutThings` | main.py:82-91 | with no things, a breeding iteration fails: the empty children come back from crossover and the model's `randrange(0)` raises (the code raises earlier, see Left out) |
| `Evolution.BredWithoutThings` | main.py:124-133 | with no things, a generation with no breeding iteration is its elite, and one with any iteration fails |
| `Evolution.GenerationsWithoutThings` | main.py:112-136 | with no things, the loop fails exactly when a generation below the limit has a fitness limit above 0 and at least 4 genomes, and then fails in `randrange(0)` |
| `Evolution.EvolveErrors` | main.py:110-144 | a genome of the wrong length fails in fitness, even with no generations; otherwise a limit of 0 or less fails with an unbound index; an empty population fails at `population[0]`; with no things, a non-empty population and at least one generation, the run fails exactly when the fitness limit is above 0 and there are at least 4 genomes, and then in `randrange(0)` |
| `Evolution.EvolveSucceeds` | main.py:110-144 | well-formed genomes, a non-empty population, at least one thing and at least one generation succeed, given a selection that always returns two members (see Left out) |
| `Evolution.EvolveOutcome` | main.py:112-144 | a successful run returns a non-empty population in non-increasing fitness order and an index below the limit; if the best fitness is under the fitness limit, the index is the last generation |
| `Evolution.EvolveSize` | main.py:124-142 | the returned population has n or 2 * (n / 2) genomes; an even size is kept exactly |
| `Evolution.EvolveKeepsBinary` | main.py:110-144 | a binary initial population gives a binary final population |
| `Evolution.EvolveKeepsBest` | main.py:123-142 | the best returned genome scores at least as well as every initial genome |
| `Evolution.ImmediateStop` | main.py:112-144 | if an initial genome already reaches the fitness limit, the run returns the sorted initial population at generation 0 |
| `Aliasing.CrossoverObjects` | main.py:77-86 | on list objects: parents shorter than 2 come back as the very same objects; longer parents give two fresh, distinct lists with the crossover's contents |
| `Aliasing.BreedStepAsWritten` | main.py:129-132 | as written: fails exactly on empty genomes (`randrange(0)`); for genomes shorter than 2 the children are the parent objects and mutating them changes the parents in place, and when both parents are one object both mutation rounds apply to it in order; longer parents are left alone and the fresh children hold the mutated crossover |
| `Aliasing.OneThingScores` | main.py:52-66 | in the one-thing knapsack of the example, the genome [1] scores 10 and [0] scores 0 |
| `Aliasing.EliteOverwrittenExample` | main.py:123-133 | as written, a population of four [1] genomes can become four [0] genomes, elites included |

## Left out

- Random number generation (`choices`, `randint`, `randrange`, `random`) and its distributions.
  The draws are inputs: parameters, or the driver's oracle.
- `Evolution.SelectionPair`: states only that both parents are members of the population. The
  fitness-proportionate (roulette-wheel) weighting of `random.choices` is a distribution and is not modelled.
- `random.choices` with all weights 0 raises `ValueError` (Python 3.9 and later). The model does
  not capture this failure: the oracle always returns two members.
- `Evolution.OffspringSucceeds`, `Evolution.BredSucceeds`, `Evolution.GenerationsSucceed` and
  `Evolution.EvolveSucceeds`: success holds only because selection never fails in the model. In the
  code, a breeding iteration over a population whose every genome has fitness 0 raises `ValueError`
  in `random.choices` (main.py:70-74, 129). One thing of value 0 and weight 1, a population of four
  `[0]` genomes, fitness limit 1 and generation limit 1 fail in the code and succeed in the model.
- `Evolution.BredSucceeds`: relies on a selection that never fails, as above.
- `Evolution.GenerationsSucceed`: relies on a selection that never fails, as above.
- `Evolution.EvolveSucceeds`: relies on a selection that never fails, as above.
- `Evolution.OffspringWithoutThings`, `Evolution.BredWithoutThings`, `Evolution.GenerationsWithoutThings`
  and `Evolution.EvolveErrors`: with no things every fitness is 0, so in the code a breeding iteration
  first fails in `random.choices` with all-zero weights, not in `randrange(0)`. Both are `ValueError`,
  and the same iterations, generations and inputs fail; only the stated cause differs.
- `Evolution.BredWithoutThings`: states the cause as `randrange(0)`, as above.
- `Evolution.GenerationsWithoutThings`: states the cause as `randrange(0)`, as above.
- `Evolution.EvolveErrors`: states the no-things cause as `randrange(0)`, as above.
- Mutation's `probability` is a float compared with `random()`. Each round takes a boolean flip
  decision instead.
- `Genomes.GeneratePopulation`: only the shape (size × length, binary genes) is stated. The bits come
  from an oracle, and their uniform distribution is not modelled.
- The driver's function parameters (`populate_func`, `fitness_func`, `selection_func`,
  `crossover_func`, `mutation_func`) are fixed. The model uses the knapsack fitness, the default
  operators and one mutation round per child, as the script calls it. The initial population is an input.
- `Ranking.SortByFitness`: the insertion sort is stable like Python's sort, but stability is not
  stated as a property.
- The value-level driver copies each child before mutating it, so no genome is shared. The
  sharing of list objects in the code as written is modelled only for one breeding step, in `Aliasing`.
- The item catalogues, `time.time()`, the `print` inside the breeding loop and the top-level
  script (main.py:26-40, 134, 146-168) are script glue with no effect on the result.

## Findings

| source | as written | input that shows it | evidently intended | confidence | as-written member | corrected member |
|---|---|---|---|---|---|---|
| main.py:82-83 | for genomes shorter than 2, `single_point_crossover` returns the parent list objects themselves. `mutation` (main.py:94) then flips them in place. The elites in `next_generation` (main.py:124) are the same objects, so they change | one thing (value 10, weight 1), weight limit 5, fitness limit 740, generation limit 1, a population of four genomes `[1]`; the selection draws the two elites and both mutation rounds flip gene 0, so the next generation is four `[0]` genomes and the best fitness falls from 10 to 0 | the two elite genomes carry over unchanged, and the best fitness never decreases | not executed | `Aliasing.EliteOverwrittenExample` | `Evolution.NextGenerationKeepsElite` |
