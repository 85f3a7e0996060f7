/**
 * run_evolution: sort by fitness, stop at the fitness limit, keep the two best genomes and refill
 * the population with mutated crossover children, for at most generation_limit generations.
 * Randomness is an oracle: the raw draws of breeding iteration j of generation i.
 */
module Evolution {
  import opened Errors
  import opened Genomes
  import opened Knapsack
  import opened Ranking
  import Crossover
  import Mutation

  /** The raw random draws of one breeding iteration. */
  datatype Draw = Draw(first: nat, second: nat, split: nat, pickA: nat, flipA: bool, pickB: nat, flipB: bool)

  /** The random source: oracle(i, j) are the draws of breeding iteration j in generation i. */
  type Oracle = (nat, nat) -> Draw

  /** What run_evolution returns: the final population, best first, and the last generation index. */
  datatype Evolved = Evolved(population: Population, generation: nat)

  /** How the generation loop ended: out of generations, or at the fitness limit in a generation. */
  datatype Exit = Exhausted(population: Population) | Stopped(population: Population, generation: nat)

  /** Every genome has one gene per thing, so fitness can score it. */
  predicate Conforming(pr: Problem, pop: Population) {
    Uniform(pop, |pr.things|)
  }

  /** The sort key: fitness bound to the problem (only ever applied to conforming genomes). */
  function Key(pr: Problem): Genome -> int {
    (g: Genome) => if |g| == |pr.things| then Score(pr, g) else 0
  }

  /** selection_pair: two members of the population, drawn with replacement. */
  function SelectionPair(pop: Population, first: nat, second: nat): (parents: (Genome, Genome))
    requires |pop| > 0
    ensures parents.0 in pop && parents.1 in pop
  {
    (pop[first % |pop|], pop[second % |pop|])
  }

  /** The draw randint(1, length - 1) obtained from a raw draw. */
  function SplitPoint(raw: nat, length: nat): (p: nat)
    ensures length >= 2 ==> 1 <= p <= length - 1
  {
    if length >= 2 then 1 + raw % (length - 1) else 0
  }

  /** The single round of mutation(child) (num = 1): randrange(len(child)) from a raw draw. */
  function RoundOf(raw: nat, flip: bool, length: nat): (c: Mutation.Choice)
    ensures length > 0 ==> c.index < length
  {
    Mutation.Choice(if length > 0 then raw % length else raw, flip)
  }

  /** Every split and every index the source can draw is the image of some raw draw. */
  lemma DrawsCoverRanges(length: nat)
    ensures forall raw: nat :: raw + 2 <= length ==> SplitPoint(raw, length) == raw + 1
    ensures forall k :: 0 <= k < length ==> RoundOf(k, true, length).index == k
  {
  }

  /** One breeding iteration: select, cross over, mutate each child. */
  function Offspring(pop: Population, d: Draw): Result<(Genome, Genome)>
    requires |pop| > 0
  {
    var (a, b) := SelectionPair(pop, d.first, d.second);
    match Crossover.SinglePointCrossover(a, b, SplitPoint(d.split, |a|))
    case Err(e) => Err(e)
    case Ok((ca, cb)) =>
      match Mutation.MutationResult(ca, [RoundOf(d.pickA, d.flipA, |ca|)])
      case Err(e) => Err(e)
      case Ok(ma) =>
        match Mutation.MutationResult(cb, [RoundOf(d.pickB, d.flipB, |cb|)])
        case Err(e) => Err(e)
        case Ok(mb) => Ok((ma, mb))
  }

  /** population[0:2]: the elite survivors. */
  function Elite(pop: Population): Population {
    pop[..if |pop| < 2 then |pop| else 2]
  }

  /** range(int(len(population) / 2) - 1): a negative count runs no iteration. */
  function BreedCount(size: nat): nat {
    if size / 2 >= 1 then size / 2 - 1 else 0
  }

  /** The next generation after the first j breeding iterations over the sorted population. */
  function Bred(pop: Population, oracle: Oracle, gen: nat, j: nat): Result<Population>
    requires |pop| > 0
    decreases j
  {
    if j == 0 then Ok(Elite(pop))
    else
      match Bred(pop, oracle, gen, j - 1)
      case Err(e) => Err(e)
      case Ok(next) =>
        match Offspring(pop, oracle(gen, j - 1))
        case Err(e) => Err(e)
        case Ok((ca, cb)) => Ok(next + [ca, cb])
  }

  /** The whole next generation bred from the sorted population of generation gen. */
  function NextGeneration(pop: Population, oracle: Oracle, gen: nat): Result<Population>
    requires |pop| > 0
  {
    Bred(pop, oracle, gen, BreedCount(|pop|))
  }

  /** The generation loop from generation i on, with current population pop. */
  function Generations(pr: Problem, pop: Population, fitnessLimit: int, generationLimit: int,
                       oracle: Oracle, i: nat): Result<Exit>
    decreases generationLimit - i
  {
    if i >= generationLimit then Ok(Exhausted(pop))
    else if !Conforming(pr, pop) then Err(GenomeLengthMismatch)
    else
      var sorted := SortByFitness(pop, Key(pr));
      if sorted == [] then Err(EmptyPopulation)
      else if Key(pr)(sorted[0]) >= fitnessLimit then Ok(Stopped(sorted, i))
      else
        match NextGeneration(sorted, oracle, i)
        case Err(e) => Err(e)
        case Ok(next) => Generations(pr, next, fitnessLimit, generationLimit, oracle, i + 1)
  }

  /** run_evolution: the loop, then a final sort; the generation index is unbound if the loop never ran. */
  function Evolve(pr: Problem, population: Population, fitnessLimit: int, generationLimit: int,
                  oracle: Oracle): Result<Evolved>
  {
    match Generations(pr, population, fitnessLimit, generationLimit, oracle, 0)
    case Err(e) => Err(e)
    case Ok(exit) =>
      if !Conforming(pr, exit.population) then Err(GenomeLengthMismatch)
      else
        var final := SortByFitness(exit.population, Key(pr));
        match exit
        case Stopped(_, i) => Ok(Evolved(final, i))
        case Exhausted(_) =>
          if generationLimit <= 0 then Err(UnboundGeneration)
          else Ok(Evolved(final, generationLimit - 1))
  }

  /** mutation(child) on a fresh copy of the child, updated in place. */
  method MutateChild(child: Genome, pick: nat, flip: bool) returns (r: Result<Genome>)
    ensures r == Mutation.MutationResult(child, [RoundOf(pick, flip, |child|)])
  {
    var genome := new int[|child|](k requires 0 <= k < |child| => child[k]);
    assert genome[..] == child;
    var ok := Mutation.Mutate(genome, [RoundOf(pick, flip, |child|)]);
    if !ok {
      return Err(EmptyRandrange);
    }
    return Ok(genome[..]);
  }

  /** The body of the breeding loop: select the parents, cross them over, mutate both children. */
  method BreedPair(pop: Population, d: Draw) returns (r: Result<(Genome, Genome)>)
    requires |pop| > 0
    ensures r == Offspring(pop, d)
  {
    var parents := SelectionPair(pop, d.first, d.second);
    var crossed := Crossover.SinglePointCrossover(parents.0, parents.1, SplitPoint(d.split, |parents.0|));
    if crossed.Err? {
      return Err(crossed.error);
    }
    var childA := MutateChild(crossed.value.0, d.pickA, d.flipA);
    if childA.Err? {
      return Err(childA.error);
    }
    var childB := MutateChild(crossed.value.1, d.pickB, d.flipB);
    match childB {
      case Err(e) => r := Err(e);
      case Ok(b) => r := Ok((childA.value, b));
    }
  }

  /** run_evolution, with the initial population given and the random draws taken from the oracle. */
  method RunEvolution(pr: Problem, population: Population, fitnessLimit: int, generationLimit: int,
                      oracle: Oracle) returns (r: Result<Evolved>)
    ensures r == Evolve(pr, population, fitnessLimit, generationLimit, oracle)
  {
    var pop := population;
    var i: nat := 0;
    var stopped := false;
    while i < generationLimit
      invariant Generations(pr, population, fitnessLimit, generationLimit, oracle, 0)
             == Generations(pr, pop, fitnessLimit, generationLimit, oracle, i)
      invariant !stopped
      decreases generationLimit - i
    {
      if !Conforming(pr, pop) {
        return Err(GenomeLengthMismatch);
      }
      var sorted := SortByFitness(pop, Key(pr));
      if |sorted| == 0 {
        return Err(EmptyPopulation);
      }
      if Key(pr)(sorted[0]) >= fitnessLimit {
        assert Generations(pr, population, fitnessLimit, generationLimit, oracle, 0) == Ok(Stopped(sorted, i));
        pop, stopped := sorted, true;
        break;
      }
      var next := Elite(sorted);
      for j := 0 to BreedCount(|sorted|)
        invariant Bred(sorted, oracle, i, j) == Ok(next)
      {
        var children := BreedPair(sorted, oracle(i, j));
        if children.Err? {
          BredErrorSticks(sorted, oracle, i, j + 1, BreedCount(|sorted|));
          return Err(children.error);
        }
        next := next + [children.value.0, children.value.1];
      }
      pop := next;
      i := i + 1;
    }
    if !Conforming(pr, pop) {
      return Err(GenomeLengthMismatch);
    }
    var final := SortByFitness(pop, Key(pr));
    if stopped {
      return Ok(Evolved(final, i));
    }
    if generationLimit <= 0 {
      return Err(UnboundGeneration);
    }
    return Ok(Evolved(final, generationLimit - 1));
  }

  /** Once a breeding iteration fails, the whole breeding loop fails with that error. */
  lemma {:induction false} BredErrorSticks(pop: Population, oracle: Oracle, gen: nat, j: nat, k: nat)
    requires |pop| > 0 && j <= k
    requires Bred(pop, oracle, gen, j).Err?
    ensures Bred(pop, oracle, gen, k) == Bred(pop, oracle, gen, j)
    decreases k
  {
    if j < k {
      BredErrorSticks(pop, oracle, gen, j, k - 1);
    }
  }

  /** Children have their parents' length, and binary parents give binary children. */
  lemma OffspringShape(pop: Population, d: Draw, length: nat)
    requires |pop| > 0
    requires Offspring(pop, d).Ok?
    ensures Uniform(pop, length) ==> |Offspring(pop, d).value.0| == length && |Offspring(pop, d).value.1| == length
    ensures AllBinary(pop) ==> IsBinary(Offspring(pop, d).value.0) && IsBinary(Offspring(pop, d).value.1)
  {
    var (a, b) := SelectionPair(pop, d.first, d.second);
    var p := SplitPoint(d.split, |a|);
    var (ca, cb) := Crossover.SinglePointCrossover(a, b, p).value;
    if AllBinary(pop) {
      Crossover.CrossoverKeepsBinary(a, b, p);
      Mutation.MutatedKeepsBinary(ca, [RoundOf(d.pickA, d.flipA, |ca|)]);
      Mutation.MutatedKeepsBinary(cb, [RoundOf(d.pickB, d.flipB, |cb|)]);
    }
  }

  /** Parents of one common, non-zero length always breed. */
  lemma OffspringSucceeds(pop: Population, d: Draw, length: nat)
    requires |pop| > 0 && Uniform(pop, length) && length > 0
    ensures Offspring(pop, d).Ok?
  {
    var (a, b) := SelectionPair(pop, d.first, d.second);
    assert |a| == length && |b| == length;
  }

  lemma EliteInPopulation(pop: Population)
    ensures forall g :: g in Elite(pop) ==> g in pop
  {
    forall g | g in Elite(pop)
      ensures g in pop
    {
      var k :| 0 <= k < |Elite(pop)| && Elite(pop)[k] == g;
      assert pop[k] == g;
    }
  }

  /**
   * After j breeding iterations the next generation is the elite followed by 2 * j children,
   * all of the parents' length, all binary if the parents are.
   */
  lemma {:induction false} BredShape(pop: Population, oracle: Oracle, gen: nat, j: nat, length: nat)
    requires |pop| > 0
    requires Bred(pop, oracle, gen, j).Ok?
    ensures |Bred(pop, oracle, gen, j).value| == |Elite(pop)| + 2 * j
    ensures Bred(pop, oracle, gen, j).value[..|Elite(pop)|] == Elite(pop)
    ensures Uniform(pop, length) ==> Uniform(Bred(pop, oracle, gen, j).value, length)
    ensures AllBinary(pop) ==> AllBinary(Bred(pop, oracle, gen, j).value)
    decreases j
  {
    EliteInPopulation(pop);
    if j > 0 {
      BredShape(pop, oracle, gen, j - 1, length);
      OffspringShape(pop, oracle(gen, j - 1), length);
      var prev := Bred(pop, oracle, gen, j - 1).value;
      var (ca, cb) := Offspring(pop, oracle(gen, j - 1)).value;
      assert Bred(pop, oracle, gen, j).value == prev + [ca, cb];
      assert (prev + [ca, cb])[..|Elite(pop)|] == prev[..|Elite(pop)|];
    }
  }

  /** A population of one common, non-zero genome length always breeds a next generation. */
  lemma {:induction false} BredSucceeds(pop: Population, oracle: Oracle, gen: nat, j: nat, length: nat)
    requires |pop| > 0 && Uniform(pop, length) && length > 0
    ensures Bred(pop, oracle, gen, j).Ok?
    decreases j
  {
    if j > 0 {
      BredSucceeds(pop, oracle, gen, j - 1, length);
      OffspringSucceeds(pop, oracle(gen, j - 1), length);
    }
  }

  /**
   * Elitism: the next generation begins with the two best genomes of the sorted population,
   * unchanged, and has 2 * (n / 2) members for a population of n >= 2.
   */
  lemma NextGenerationKeepsElite(pop: Population, oracle: Oracle, gen: nat)
    requires |pop| >= 2
    requires NextGeneration(pop, oracle, gen).Ok?
    ensures |NextGeneration(pop, oracle, gen).value| == 2 * (|pop| / 2)
    ensures NextGeneration(pop, oracle, gen).value[0] == pop[0]
    ensures NextGeneration(pop, oracle, gen).value[1] == pop[1]
  {
    var next := NextGeneration(pop, oracle, gen).value;
    BredShape(pop, oracle, gen, BreedCount(|pop|), 0);
    assert next[..2] == pop[..2];
    assert next[0] == next[..2][0] && next[1] == next[..2][1];
  }

  /** A conforming population sorts into a conforming population of the same size. */
  lemma SortConforming(pr: Problem, pop: Population)
    requires Conforming(pr, pop)
    ensures Conforming(pr, SortByFitness(pop, Key(pr)))
    ensures |SortByFitness(pop, Key(pr))| == |pop|
  {
    SortKeepsMembers(pop, Key(pr));
  }

  /**
   * The loop stops only at a generation whose sorted population reaches the fitness limit, and
   * from generation i on it ends, if at all, with a non-empty conforming population.
   */
  lemma {:induction false} GenerationsStopRule(pr: Problem, pop: Population, fitnessLimit: int,
                                               generationLimit: int, oracle: Oracle, i: nat)
    ensures Generations(pr, pop, fitnessLimit, generationLimit, oracle, i).Ok? ==>
            var exit := Generations(pr, pop, fitnessLimit, generationLimit, oracle, i).value;
            exit.Stopped? ==> && i <= exit.generation < generationLimit
                              && exit.population != []
                              && SortedDesc(exit.population, Key(pr))
                              && Key(pr)(exit.population[0]) >= fitnessLimit
    ensures Generations(pr, pop, fitnessLimit, generationLimit, oracle, i).Ok? ==>
            var exit := Generations(pr, pop, fitnessLimit, generationLimit, oracle, i).value;
            i < generationLimit ==> exit.population != [] && Conforming(pr, exit.population)
    decreases generationLimit - i
  {
    if Generations(pr, pop, fitnessLimit, generationLimit, oracle, i).Ok? {
      if i < generationLimit {
        var sorted := SortByFitness(pop, Key(pr));
        SortConforming(pr, pop);
        if Key(pr)(sorted[0]) < fitnessLimit {
          var next := NextGeneration(sorted, oracle, i).value;
          BredShape(sorted, oracle, i, BreedCount(|sorted|), |pr.things|);
          GenerationsStopRule(pr, next, fitnessLimit, generationLimit, oracle, i + 1);
        }
      }
    }
  }

  /** The size arithmetic of one generation: elite plus children, and its fixed point. */
  lemma NextGenerationSize(n: nat)
    requires n >= 1
    ensures (if n < 2 then n else 2) + 2 * BreedCount(n) == if n < 2 then n else 2 * (n / 2)
    ensures 2 * ((2 * (n / 2)) / 2) == 2 * (n / 2)
  {
  }

  /** Each generation keeps an even size n and turns an odd n >= 3 into n - 1. */
  lemma {:induction false} GenerationsSize(pr: Problem, pop: Population, fitnessLimit: int,
                                           generationLimit: int, oracle: Oracle, i: nat)
    ensures Generations(pr, pop, fitnessLimit, generationLimit, oracle, i).Ok? ==>
            var exit := Generations(pr, pop, fitnessLimit, generationLimit, oracle, i).value;
            |exit.population| == |pop| || |exit.population| == 2 * (|pop| / 2)
    decreases generationLimit - i
  {
    if Generations(pr, pop, fitnessLimit, generationLimit, oracle, i).Ok? {
      if i < generationLimit {
        var sorted := SortByFitness(pop, Key(pr));
        SortConforming(pr, pop);
        if Key(pr)(sorted[0]) < fitnessLimit {
          var next := NextGeneration(sorted, oracle, i).value;
          BredShape(sorted, oracle, i, BreedCount(|sorted|), 0);
          NextGenerationSize(|pop|);
          assert |next| == if |pop| < 2 then |pop| else 2 * (|pop| / 2);
          GenerationsSize(pr, next, fitnessLimit, generationLimit, oracle, i + 1);
        }
      }
    }
  }

  /** A binary population stays binary through every generation. */
  lemma {:induction false} GenerationsKeepBinary(pr: Problem, pop: Population, fitnessLimit: int,
                                                 generationLimit: int, oracle: Oracle, i: nat)
    requires AllBinary(pop)
    ensures Generations(pr, pop, fitnessLimit, generationLimit, oracle, i).Ok? ==>
            AllBinary(Generations(pr, pop, fitnessLimit, generationLimit, oracle, i).value.population)
    decreases generationLimit - i
  {
    if Generations(pr, pop, fitnessLimit, generationLimit, oracle, i).Ok? {
      if i < generationLimit {
        var sorted := SortByFitness(pop, Key(pr));
        SortKeepsMembers(pop, Key(pr));
        if Key(pr)(sorted[0]) < fitnessLimit {
          var next := NextGeneration(sorted, oracle, i).value;
          BredShape(sorted, oracle, i, BreedCount(|sorted|), 0);
          GenerationsKeepBinary(pr, next, fitnessLimit, generationLimit, oracle, i + 1);
        }
      }
    }
  }

  /** Elitism across generations: some genome at the end scores at least as well as any genome at the start. */
  lemma {:induction false} GenerationsKeepBest(pr: Problem, pop: Population, fitnessLimit: int,
                                               generationLimit: int, oracle: Oracle, i: nat, w: Genome)
    requires w in pop
    ensures Generations(pr, pop, fitnessLimit, generationLimit, oracle, i).Ok? ==>
            var exit := Generations(pr, pop, fitnessLimit, generationLimit, oracle, i).value;
            exists g :: g in exit.population && Key(pr)(g) >= Key(pr)(w)
    decreases generationLimit - i
  {
    if Generations(pr, pop, fitnessLimit, generationLimit, oracle, i).Ok? {
      var exit := Generations(pr, pop, fitnessLimit, generationLimit, oracle, i).value;
      if i >= generationLimit {
        assert w in exit.population && Key(pr)(w) >= Key(pr)(w);
        assert exists g :: g in exit.population && Key(pr)(g) >= Key(pr)(w);
      } else {
        var sorted := SortByFitness(pop, Key(pr));
        SortedHeadIsBest(pop, Key(pr));
        if Key(pr)(sorted[0]) >= fitnessLimit {
          assert sorted[0] in exit.population && Key(pr)(sorted[0]) >= Key(pr)(w);
        } else {
          var next := NextGeneration(sorted, oracle, i).value;
          BredShape(sorted, oracle, i, BreedCount(|sorted|), 0);
          assert next[0] == next[..|Elite(sorted)|][0] == sorted[0];
          GenerationsKeepBest(pr, next, fitnessLimit, generationLimit, oracle, i + 1, sorted[0]);
        }
      }
    }
  }

  /** With well-formed genomes, a non-empty population and at least one thing, the loop never fails. */
  lemma {:induction false} GenerationsSucceed(pr: Problem, pop: Population, fitnessLimit: int,
                                              generationLimit: int, oracle: Oracle, i: nat)
    requires Conforming(pr, pop) && pop != [] && |pr.things| > 0
    ensures Generations(pr, pop, fitnessLimit, generationLimit, oracle, i).Ok?
    ensures Conforming(pr, Generations(pr, pop, fitnessLimit, generationLimit, oracle, i).value.population)
    decreases generationLimit - i
  {
    if i < generationLimit {
      var sorted := SortByFitness(pop, Key(pr));
      SortConforming(pr, pop);
      if Key(pr)(sorted[0]) < fitnessLimit {
        BredSucceeds(sorted, oracle, i, BreedCount(|sorted|), |pr.things|);
        var next := NextGeneration(sorted, oracle, i).value;
        BredShape(sorted, oracle, i, BreedCount(|sorted|), |pr.things|);
        GenerationsSucceed(pr, next, fitnessLimit, generationLimit, oracle, i + 1);
      }
    }
  }

  /** With no things every genome is empty, and its first mutation round fails in randrange(0). */
  lemma OffspringWithoutThings(pop: Population, d: Draw)
    requires |pop| > 0 && Uniform(pop, 0)
    ensures Offspring(pop, d) == Err(EmptyRandrange)
  {
    var (a, b) := SelectionPair(pop, d.first, d.second);
    assert |a| == 0 && |b| == 0;
  }

  /** With no things, the first breeding iteration of a generation fails, and so does the generation. */
  lemma {:induction false} BredWithoutThings(pop: Population, oracle: Oracle, gen: nat, j: nat)
    requires |pop| > 0 && Uniform(pop, 0)
    ensures Bred(pop, oracle, gen, j) == if j == 0 then Ok(Elite(pop)) else Err(EmptyRandrange)
    decreases j
  {
    if j > 0 {
      BredWithoutThings(pop, oracle, gen, j - 1);
      if j == 1 {
        OffspringWithoutThings(pop, oracle(gen, 0));
      }
    }
  }

  /**
   * With no things every genome scores 0. The loop fails exactly when a generation has to breed:
   * the fitness limit is above 0 and the population holds at least 4 genomes, so that
   * int(len(population) / 2) - 1 >= 1. Smaller populations shrink to their elite and run out the generations.
   */
  lemma {:induction false} GenerationsWithoutThings(pr: Problem, pop: Population, fitnessLimit: int,
                                                    generationLimit: int, oracle: Oracle, i: nat)
    requires |pr.things| == 0 && Conforming(pr, pop) && pop != []
    ensures Generations(pr, pop, fitnessLimit, generationLimit, oracle, i).Err? <==>
              i < generationLimit && fitnessLimit > 0 && |pop| >= 4
    ensures Generations(pr, pop, fitnessLimit, generationLimit, oracle, i).Err? ==>
              Generations(pr, pop, fitnessLimit, generationLimit, oracle, i).error == EmptyRandrange
    decreases generationLimit - i
  {
    if i < generationLimit {
      var sorted := SortByFitness(pop, Key(pr));
      SortConforming(pr, pop);
      assert sorted[0] == [];
      assert Key(pr)(sorted[0]) == 0;
      if fitnessLimit > 0 {
        BredWithoutThings(sorted, oracle, i, BreedCount(|sorted|));
        if |pop| < 4 {
          var next := Elite(sorted);
          EliteInPopulation(sorted);
          GenerationsWithoutThings(pr, next, fitnessLimit, generationLimit, oracle, i + 1);
        }
      }
    }
  }

  /**
   * The error cases of run_evolution: a genome of the wrong length fails in fitness, an empty
   * population fails at population[0], and a generation limit of 0 or less leaves i unbound.
   */
  lemma EvolveErrors(pr: Problem, population: Population, fitnessLimit: int, generationLimit: int,
                     oracle: Oracle)
    ensures !Conforming(pr, population) ==>
              Evolve(pr, population, fitnessLimit, generationLimit, oracle) == Err(GenomeLengthMismatch)
    ensures Conforming(pr, population) && generationLimit <= 0 ==>
              Evolve(pr, population, fitnessLimit, generationLimit, oracle) == Err(UnboundGeneration)
    ensures generationLimit > 0 && population == [] ==>
              Evolve(pr, population, fitnessLimit, generationLimit, oracle) == Err(EmptyPopulation)
    ensures Conforming(pr, population) && |pr.things| == 0 && generationLimit > 0 && population != [] ==>
              (Evolve(pr, population, fitnessLimit, generationLimit, oracle).Err? <==> |population| >= 4 && fitnessLimit > 0)
    ensures Conforming(pr, population) && |pr.things| == 0 && generationLimit > 0 && population != []
              && Evolve(pr, population, fitnessLimit, generationLimit, oracle).Err? ==>
              Evolve(pr, population, fitnessLimit, generationLimit, oracle).error == EmptyRandrange
  {
    if Conforming(pr, population) && |pr.things| == 0 && generationLimit > 0 && population != [] {
      GenerationsWithoutThings(pr, population, fitnessLimit, generationLimit, oracle, 0);
      GenerationsStopRule(pr, population, fitnessLimit, generationLimit, oracle, 0);
    }
    if generationLimit > 0 && population == [] {
      assert Conforming(pr, population);
      assert SortByFitness(population, Key(pr)) == [];
    }
  }

  /** Every other input succeeds: well-formed genomes, a non-empty population, things and generations. */
  lemma EvolveSucceeds(pr: Problem, population: Population, fitnessLimit: int, generationLimit: int,
                       oracle: Oracle)
    requires Conforming(pr, population) && population != [] && |pr.things| > 0 && generationLimit > 0
    ensures Evolve(pr, population, fitnessLimit, generationLimit, oracle).Ok?
  {
    GenerationsSucceed(pr, population, fitnessLimit, generationLimit, oracle, 0);
  }

  /** A successful run is the final sort of a successful loop's population. */
  lemma EvolveUnfold(pr: Problem, population: Population, fitnessLimit: int, generationLimit: int,
                     oracle: Oracle)
    ensures Evolve(pr, population, fitnessLimit, generationLimit, oracle).Ok? ==> Conforming(pr, population)
    ensures Evolve(pr, population, fitnessLimit, generationLimit, oracle).Ok? ==>
            var gens := Generations(pr, population, fitnessLimit, generationLimit, oracle, 0);
            var result := Evolve(pr, population, fitnessLimit, generationLimit, oracle).value;
            && gens.Ok?
            && Conforming(pr, gens.value.population)
            && result.population == SortByFitness(gens.value.population, Key(pr))
            && result.generation == if gens.value.Stopped? then gens.value.generation else generationLimit - 1
  {
    EvolveErrors(pr, population, fitnessLimit, generationLimit, oracle);
  }

  /**
   * A successful run returns a non-empty population in non-increasing fitness order and a generation
   * index below the limit; unless the best genome reached the fitness limit, that index is the last one.
   */
  lemma EvolveOutcome(pr: Problem, population: Population, fitnessLimit: int, generationLimit: int,
                      oracle: Oracle)
    ensures Evolve(pr, population, fitnessLimit, generationLimit, oracle).Ok? ==>
            var result := Evolve(pr, population, fitnessLimit, generationLimit, oracle).value;
            && Conforming(pr, population)
            && Conforming(pr, result.population)
            && result.population != []
            && (forall k, l :: 0 <= k < l < |result.population| ==>
                  Score(pr, result.population[k]) >= Score(pr, result.population[l]))
            && result.generation < generationLimit
            && (Score(pr, result.population[0]) < fitnessLimit ==> result.generation == generationLimit - 1)
  {
    if Evolve(pr, population, fitnessLimit, generationLimit, oracle).Ok? {
      EvolveUnfold(pr, population, fitnessLimit, generationLimit, oracle);
      var exit := Generations(pr, population, fitnessLimit, generationLimit, oracle, 0).value;
      var result := Evolve(pr, population, fitnessLimit, generationLimit, oracle).value;
      var p := result.population;
      GenerationsStopRule(pr, population, fitnessLimit, generationLimit, oracle, 0);
      assert exit.population != [] && Conforming(pr, exit.population);
      SortConforming(pr, exit.population);
      assert Conforming(pr, p) && p != [];
      assert SortedDesc(p, Key(pr));
      if exit.Stopped? {
        SortIdempotent(exit.population, Key(pr));
        assert Key(pr)(p[0]) >= fitnessLimit;
      }
      assert p[0] in p;
    }
  }

  /**
   * The returned population keeps an even initial size; an odd size n >= 3 may shrink to n - 1,
   * since each generation holds the 2 elite genomes and 2 * (n / 2 - 1) children.
   */
  lemma EvolveSize(pr: Problem, population: Population, fitnessLimit: int, generationLimit: int,
                   oracle: Oracle)
    ensures Evolve(pr, population, fitnessLimit, generationLimit, oracle).Ok? ==>
            var p := Evolve(pr, population, fitnessLimit, generationLimit, oracle).value.population;
            |p| == |population| || |p| == 2 * (|population| / 2)
    ensures Evolve(pr, population, fitnessLimit, generationLimit, oracle).Ok? && |population| % 2 == 0 ==>
              |Evolve(pr, population, fitnessLimit, generationLimit, oracle).value.population| == |population|
  {
    if Evolve(pr, population, fitnessLimit, generationLimit, oracle).Ok? {
      var exit := Generations(pr, population, fitnessLimit, generationLimit, oracle, 0).value;
      GenerationsSize(pr, population, fitnessLimit, generationLimit, oracle, 0);
      SortConforming(pr, exit.population);
    }
  }

  /** A binary initial population yields a binary final population. */
  lemma EvolveKeepsBinary(pr: Problem, population: Population, fitnessLimit: int, generationLimit: int,
                          oracle: Oracle)
    requires AllBinary(population)
    ensures Evolve(pr, population, fitnessLimit, generationLimit, oracle).Ok? ==>
            AllBinary(Evolve(pr, population, fitnessLimit, generationLimit, oracle).value.population)
  {
    if Evolve(pr, population, fitnessLimit, generationLimit, oracle).Ok? {
      var exit := Generations(pr, population, fitnessLimit, generationLimit, oracle, 0).value;
      GenerationsKeepBinary(pr, population, fitnessLimit, generationLimit, oracle, 0);
      SortKeepsMembers(exit.population, Key(pr));
    }
  }

  /** Because of elitism, the best returned genome scores at least as well as every initial genome. */
  lemma EvolveKeepsBest(pr: Problem, population: Population, fitnessLimit: int, generationLimit: int,
                        oracle: Oracle)
    ensures Evolve(pr, population, fitnessLimit, generationLimit, oracle).Ok? ==>
            var p := Evolve(pr, population, fitnessLimit, generationLimit, oracle).value.population;
            && Conforming(pr, population) && Conforming(pr, p) && p != []
            && forall w :: w in population ==> Score(pr, p[0]) >= Score(pr, w)
  {
    if Evolve(pr, population, fitnessLimit, generationLimit, oracle).Ok? {
      var exit := Generations(pr, population, fitnessLimit, generationLimit, oracle, 0).value;
      var p := Evolve(pr, population, fitnessLimit, generationLimit, oracle).value.population;
      EvolveOutcome(pr, population, fitnessLimit, generationLimit, oracle);
      SortedHeadIsBest(exit.population, Key(pr));
      forall w | w in population
        ensures Score(pr, p[0]) >= Score(pr, w)
      {
        GenerationsKeepBest(pr, population, fitnessLimit, generationLimit, oracle, 0, w);
      }
    }
  }

  /** If an initial genome already reaches the fitness limit, the run stops in generation 0 with the sorted initial population. */
  lemma ImmediateStop(pr: Problem, population: Population, fitnessLimit: int, generationLimit: int,
                      oracle: Oracle)
    requires generationLimit > 0 && Conforming(pr, population)
    requires exists w :: w in population && Score(pr, w) >= fitnessLimit
    ensures Evolve(pr, population, fitnessLimit, generationLimit, oracle)
         == Ok(Evolved(SortByFitness(population, Key(pr)), 0))
  {
    var w :| w in population && Score(pr, w) >= fitnessLimit;
    SortedHeadIsBest(population, Key(pr));
    SortConforming(pr, population);
    SortIdempotent(SortByFitness(population, Key(pr)), Key(pr));
  }
}
