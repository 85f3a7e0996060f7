/** The knapsack fitness: the value of the selected things, or 0 once their running weight passes the limit. */
module Knapsack {
  import opened Errors
  import opened Genomes

  /** An item of the catalogue. */
  datatype Thing = Thing(name: string, value: int, weight: int)

  /** A knapsack instance: the fitness function the driver is given is fitness bound to these two. */
  datatype Problem = Problem(things: seq<Thing>, weightLimit: int)

  /** Total weight of the things among the first n whose gene is exactly 1. */
  function SelectedWeight(g: Genome, things: seq<Thing>, n: nat): int
    requires n <= |g| && n <= |things|
  {
    if n == 0 then 0
    else SelectedWeight(g, things, n - 1) + (if g[n - 1] == 1 then things[n - 1].weight else 0)
  }

  /** Total value of the things among the first n whose gene is exactly 1. */
  function SelectedValue(g: Genome, things: seq<Thing>, n: nat): int
    requires n <= |g| && n <= |things|
  {
    if n == 0 then 0
    else SelectedValue(g, things, n - 1) + (if g[n - 1] == 1 then things[n - 1].value else 0)
  }

  /** Total value of the first n things of the catalogue. */
  function TotalValue(things: seq<Thing>, n: nat): int
    requires n <= |things|
  {
    if n == 0 then 0 else TotalValue(things, n - 1) + things[n - 1].value
  }

  /** Right after adding some selected thing, the running weight is above the limit. */
  predicate Overflows(g: Genome, things: seq<Thing>, weightLimit: int)
    requires |g| == |things|
  {
    exists k :: 0 <= k < |things| && g[k] == 1 && SelectedWeight(g, things, k + 1) > weightLimit
  }

  /** The score fitness computes for a genome of the right length. */
  function FitnessOf(g: Genome, things: seq<Thing>, weightLimit: int): int
    requires |g| == |things|
  {
    if Overflows(g, things, weightLimit) then 0 else SelectedValue(g, things, |things|)
  }

  /** The fitness of a genome under a problem instance. */
  function Score(pr: Problem, g: Genome): int
    requires |g| == |pr.things|
  {
    FitnessOf(g, pr.things, pr.weightLimit)
  }

  predicate NonNegativeValues(things: seq<Thing>) {
    forall i :: 0 <= i < |things| ==> things[i].value >= 0
  }

  predicate NonNegativeWeights(things: seq<Thing>) {
    forall i :: 0 <= i < |things| ==> things[i].weight >= 0
  }

  /**
   * fitness: fails when genome and catalogue differ in length; otherwise walks the things in
   * order, accumulating weight and value of the selected ones, and gives up with 0 as soon as
   * the running weight exceeds the limit.
   */
  method Fitness(genome: Genome, things: seq<Thing>, weightLimit: int) returns (r: Result<int>)
    ensures r.Err? <==> |genome| != |things|
    ensures r.Err? ==> r.error == GenomeLengthMismatch
    ensures r.Ok? ==> r.value == FitnessOf(genome, things, weightLimit)
  {
    if |genome| != |things| {
      return Err(GenomeLengthMismatch);
    }
    var weigh, value := 0, 0;
    for i := 0 to |things|
      invariant weigh == SelectedWeight(genome, things, i)
      invariant value == SelectedValue(genome, things, i)
      invariant forall k :: 0 <= k < i && genome[k] == 1 ==> SelectedWeight(genome, things, k + 1) <= weightLimit
    {
      if genome[i] == 1 {
        weigh := weigh + things[i].weight;
        value := value + things[i].value;
        if weigh > weightLimit {
          return Ok(0);
        }
      }
    }
    return Ok(value);
  }

  /** With non-negative values, the selected value lies between 0 and the catalogue's total value. */
  lemma {:induction false} SelectedValueBounds(g: Genome, things: seq<Thing>, n: nat)
    requires n <= |g| && n <= |things|
    requires NonNegativeValues(things)
    ensures 0 <= SelectedValue(g, things, n) <= TotalValue(things, n)
  {
    if n > 0 {
      SelectedValueBounds(g, things, n - 1);
    }
  }

  /** With non-negative values, a fitness is never negative and never above the total value of all things. */
  lemma FitnessBounds(g: Genome, things: seq<Thing>, weightLimit: int)
    requires |g| == |things|
    requires NonNegativeValues(things)
    ensures 0 <= FitnessOf(g, things, weightLimit) <= TotalValue(things, |things|)
  {
    SelectedValueBounds(g, things, |things|);
  }

  /** With non-negative weights the running weight never decreases. */
  lemma {:induction false} SelectedWeightMonotone(g: Genome, things: seq<Thing>, m: nat, n: nat)
    requires m <= n <= |g| && n <= |things|
    requires NonNegativeWeights(things)
    ensures SelectedWeight(g, things, m) <= SelectedWeight(g, things, n)
  {
    if m < n {
      SelectedWeightMonotone(g, things, m, n - 1);
    }
  }

  /** A selection over a non-negative limit is too heavy only if adding some selected thing made it so. */
  lemma {:induction false} HeavySelectionOverflows(g: Genome, things: seq<Thing>, n: nat, weightLimit: int)
    requires n <= |g| == |things|
    requires weightLimit >= 0
    requires SelectedWeight(g, things, n) > weightLimit
    ensures exists k :: 0 <= k < n && g[k] == 1 && SelectedWeight(g, things, k + 1) > weightLimit
  {
    if g[n - 1] != 1 {
      HeavySelectionOverflows(g, things, n - 1, weightLimit);
    }
  }

  /**
   * With non-negative weights and limit, the early exit is the same as judging the whole
   * selection: 0 when its total weight exceeds the limit, its total value otherwise.
   */
  lemma FitnessIsFeasibilityPenalty(g: Genome, things: seq<Thing>, weightLimit: int)
    requires |g| == |things|
    requires NonNegativeWeights(things) && weightLimit >= 0
    ensures FitnessOf(g, things, weightLimit)
         == if SelectedWeight(g, things, |things|) > weightLimit then 0 else SelectedValue(g, things, |things|)
  {
    if SelectedWeight(g, things, |things|) > weightLimit {
      HeavySelectionOverflows(g, things, |things|, weightLimit);
    } else if Overflows(g, things, weightLimit) {
      var k :| 0 <= k < |things| && g[k] == 1 && SelectedWeight(g, things, k + 1) > weightLimit;
      SelectedWeightMonotone(g, things, k + 1, |things|);
    }
  }
}
