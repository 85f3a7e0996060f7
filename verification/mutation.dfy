/** mutation: flip randomly chosen genes of a genome in place. */
module Mutation {
  import opened Errors
  import opened Genomes

  /**
   * One round of the mutation loop: `index` is the draw randrange(len(genome)) and `flip`
   * says that the draw random() did not exceed the probability.
   */
  datatype Choice = Choice(index: nat, flip: bool)

  /** abs(x - 1): swaps 0 and 1. */
  function Flip(x: int): (y: int)
    ensures y >= 0
    ensures x == 0 ==> y == 1
    ensures x == 1 ==> y == 0
  {
    if x >= 1 then x - 1 else 1 - x
  }

  /** Every drawn index falls inside a genome of the given length. */
  predicate InRange(choices: seq<Choice>, length: nat) {
    forall c :: c in choices ==> c.index < length
  }

  /** The positions some round of the mutation draws. */
  function Chosen(choices: seq<Choice>): set<nat> {
    set c | c in choices :: c.index
  }

  /** The positions at which two genomes of equal length differ. */
  function Changed(g: Genome, h: Genome): set<nat>
    requires |g| == |h|
  {
    set k: nat | k < |g| && g[k] != h[k]
  }

  function Apply(g: Genome, c: Choice): Genome
    requires c.index < |g|
  {
    if c.flip then g[c.index := Flip(g[c.index])] else g
  }

  /** The genome after the rounds `choices`, applied in order. */
  function Mutated(g: Genome, choices: seq<Choice>): (r: Genome)
    requires InRange(choices, |g|)
    ensures |r| == |g|
    decreases |choices|
  {
    if choices == [] then g else Mutated(Apply(g, choices[0]), choices[1..])
  }

  /** What mutation yields: the first round on an empty genome fails in randrange(0). */
  function MutationResult(g: Genome, choices: seq<Choice>): Result<Genome>
    requires |g| > 0 ==> InRange(choices, |g|)
  {
    if |g| == 0 && |choices| > 0 then Err(EmptyRandrange) else Ok(Mutated(g, choices))
  }

  /**
   * mutation, with its `num` rounds given as `choices`: each round overwrites the drawn
   * position with itself or with its flip. The genome is updated in place.
   */
  method Mutate(genome: array<int>, choices: seq<Choice>) returns (ok: bool)
    requires genome.Length > 0 ==> InRange(choices, genome.Length)
    modifies genome
    ensures MutationResult(old(genome[..]), choices) == if ok then Ok(genome[..]) else Err(EmptyRandrange)
    ensures !ok ==> genome[..] == old(genome[..])
  {
    if genome.Length == 0 && |choices| > 0 {
      return false;
    }
    for n := 0 to |choices|
      invariant InRange(choices[n..], genome.Length)
      invariant Mutated(genome[..], choices[n..]) == Mutated(old(genome[..]), choices)
    {
      var c := choices[n];
      ghost var before := genome[..];
      assert choices[n..][0] == c && choices[n..][1..] == choices[n + 1..];
      genome[c.index] := if c.flip then Flip(genome[c.index]) else genome[c.index];
      assert genome[..] == Apply(before, c);
    }
    return true;
  }

  /** Binary genomes stay binary, and a position either keeps its gene or holds its flip. */
  lemma {:induction false} MutatedKeepsBinary(g: Genome, choices: seq<Choice>)
    requires InRange(choices, |g|)
    requires IsBinary(g)
    ensures IsBinary(Mutated(g, choices))
    ensures forall k :: 0 <= k < |g| ==> Mutated(g, choices)[k] in {g[k], Flip(g[k])}
    decreases |choices|
  {
    if choices != [] {
      MutatedKeepsBinary(Apply(g, choices[0]), choices[1..]);
    }
  }

  /** Only drawn positions can change. */
  lemma {:induction false} MutatedChangesOnlyChosen(g: Genome, choices: seq<Choice>)
    requires InRange(choices, |g|)
    ensures Changed(g, Mutated(g, choices)) <= Chosen(choices)
    decreases |choices|
  {
    if choices != [] {
      var g' := Apply(g, choices[0]);
      MutatedChangesOnlyChosen(g', choices[1..]);
      assert Chosen(choices) == {choices[0].index} + Chosen(choices[1..]);
      forall k | k in Changed(g, Mutated(g, choices))
        ensures k in Chosen(choices)
      {
        if g'[k] == g[k] {
          assert k in Changed(g', Mutated(g', choices[1..]));
        }
      }
    }
  }

  /** There are at most as many drawn positions as rounds. */
  lemma {:induction false} ChosenBound(choices: seq<Choice>)
    ensures |Chosen(choices)| <= |choices|
    decreases |choices|
  {
    if choices != [] {
      ChosenBound(choices[1..]);
      assert Chosen(choices) == {choices[0].index} + Chosen(choices[1..]);
    }
  }

  lemma SubsetCardinality(a: set<nat>, b: set<nat>)
    requires a <= b
    ensures |a| <= |b|
  {
    assert b == a + (b - a);
  }

  /** A mutation of num rounds changes at most num positions. */
  lemma MutationChangesAtMostNum(g: Genome, choices: seq<Choice>)
    requires InRange(choices, |g|)
    ensures |Changed(g, Mutated(g, choices))| <= |choices|
  {
    MutatedChangesOnlyChosen(g, choices);
    SubsetCardinality(Changed(g, Mutated(g, choices)), Chosen(choices));
    ChosenBound(choices);
  }

  /** Rounds that draw no flip leave the genome as it was. */
  lemma {:induction false} NoFlipNoChange(g: Genome, choices: seq<Choice>)
    requires InRange(choices, |g|)
    requires forall c :: c in choices ==> !c.flip
    ensures Mutated(g, choices) == g
    decreases |choices|
  {
    if choices != [] {
      NoFlipNoChange(g, choices[1..]);
    }
  }
}
