/** Genomes (0/1 inclusion vectors, one gene per item) and populations of them. */
module Genomes {

  type Genome = seq<int>
  type Population = seq<Genome>

  /** Every gene is exactly 0 or 1. */
  predicate IsBinary(g: Genome) {
    forall i :: 0 <= i < |g| ==> g[i] == 0 || g[i] == 1
  }

  predicate AllBinary(pop: Population) {
    forall g :: g in pop ==> IsBinary(g)
  }

  /** Every genome of the population has the given length. */
  predicate Uniform(pop: Population, length: nat) {
    forall g :: g in pop ==> |g| == length
  }

  /** generate_genome: `length` genes, each drawn from {0, 1}; the draw of gene i is bit(i). */
  function GenerateGenome(length: nat, bit: nat -> bool): (g: Genome)
    ensures |g| == length && IsBinary(g)
    ensures forall i :: 0 <= i < length ==> (g[i] == 1 <==> bit(i))
  {
    seq(length, (i: nat) => if bit(i) then 1 else 0)
  }

  /** generate_population: `size` independently drawn genomes of `genomeLength` genes each. */
  function GeneratePopulation(size: nat, genomeLength: nat, bit: (nat, nat) -> bool): (pop: Population)
    ensures |pop| == size
    ensures Uniform(pop, genomeLength) && AllBinary(pop)
  {
    seq(size, (k: nat) => GenerateGenome(genomeLength, (i: nat) => bit(k, i)))
  }
}
