/**
 * run_evolution as written, with genomes as shared list objects: when genomes are shorter than 2,
 * single_point_crossover returns the parent objects themselves and mutation then flips them in
 * place, so the elite genomes already placed in the next generation can change.
 */
module Aliasing {
  import opened Errors
  import opened Genomes
  import opened Knapsack
  import Crossover
  import Mutation

  /** single_point_crossover on list objects: parents shorter than 2 come back as the same objects. */
  method CrossoverObjects(a: array<int>, b: array<int>, p: nat) returns (ca: array<int>, cb: array<int>)
    requires a.Length == b.Length
    requires a.Length >= 2 ==> 1 <= p <= a.Length - 1
    ensures a.Length < 2 ==> ca == a && cb == b
    ensures a.Length >= 2 ==> fresh(ca) && fresh(cb) && ca != cb
    ensures Crossover.SinglePointCrossover(a[..], b[..], p) == Ok((ca[..], cb[..]))
  {
    if a.Length < 2 {
      return a, b;
    }
    var sa := a[..p] + b[p..];
    var sb := b[..p] + a[p..];
    ca := new int[a.Length](k requires 0 <= k < |sa| => sa[k]);
    cb := new int[a.Length](k requires 0 <= k < |sb| => sb[k]);
    assert ca[..] == sa && cb[..] == sb;
  }

  /**
   * One breeding iteration as written: cross over the selected parent objects, then mutate each
   * child object in place. Selection draws with replacement, so a and b may be one object; for
   * genomes of length 1 both mutation rounds then hit that object. An empty genome fails in the
   * first randrange(0), reported as !ok.
   */
  method BreedStepAsWritten(a: array<int>, b: array<int>, split: nat, roundA: Mutation.Choice,
                            roundB: Mutation.Choice) returns (childA: array<int>, childB: array<int>, ok: bool)
    requires a.Length == b.Length
    requires a.Length >= 2 ==> 1 <= split <= a.Length - 1
    requires a.Length > 0 ==> roundA.index < a.Length && roundB.index < a.Length
    modifies a, b
    ensures !ok <==> a.Length == 0
    ensures a.Length < 2 ==> childA == a && childB == b
    ensures a.Length >= 2 ==> fresh(childA) && fresh(childB) && unchanged(a) && unchanged(b)
    ensures a.Length >= 2 ==>
              var (ca, cb) := Crossover.SinglePointCrossover(old(a[..]), old(b[..]), split).value;
              childA[..] == Mutation.Mutated(ca, [roundA]) && childB[..] == Mutation.Mutated(cb, [roundB])
    ensures a.Length == 1 && a != b ==>
              a[..] == Mutation.Mutated(old(a[..]), [roundA]) && b[..] == Mutation.Mutated(old(b[..]), [roundB])
    ensures a.Length == 1 && a == b ==> a[..] == Mutation.Mutated(old(a[..]), [roundA, roundB])
  {
    ghost var start := a[..];
    childA, childB := CrossoverObjects(a, b, split);
    var okA := Mutation.Mutate(childA, [roundA]);
    if !okA {
      return childA, childB, false;
    }
    ghost var mid := childB[..];
    var okB := Mutation.Mutate(childB, [roundB]);
    if a.Length == 1 && a == b {
      var first := Mutation.Apply(start, roundA);
      assert [roundA][1..] == [] && [roundA, roundB][1..] == [roundB];
      assert mid == Mutation.Mutated(start, [roundA]) == first;
      assert a[..] == Mutation.Mutated(first, [roundB]) == Mutation.Mutated(start, [roundA, roundB]);
    }
    ok := okB;
  }

  /** The one-thing knapsack of the example: the thing alone scores 10, nothing scores 0. */
  lemma OneThingScores()
    ensures Score(Problem([Thing("x", 10, 1)], 5), [1]) == 10
    ensures Score(Problem([Thing("x", 10, 1)], 5), [0]) == 0
  {
    var things := [Thing("x", 10, 1)];
    assert SelectedWeight([1], things, 1) == 1;
    assert !Overflows([1], things, 5);
    assert !Overflows([0], things, 5);
  }

  /**
   * A population of four one-gene genomes [1] in the one-thing knapsack above, with a fitness limit
   * above 10 (so generation 0 does not stop) and a generation limit of at least 1. Generation 0 keeps
   * the two elite objects, breeds once (int(4 / 2) - 1 == 1), selects those two elites as parents
   * and both mutation rounds flip gene 0. Every genome of the next generation is then [0]: the
   * elites changed and the best fitness fell from 10 to 0.
   */
  method EliteOverwrittenExample() returns (before: Population, after: Population)
    ensures before == [[1], [1], [1], [1]]
    ensures after == [[0], [0], [0], [0]]
  {
    var g0 := new int[1](_ => 1);
    var g1 := new int[1](_ => 1);
    var g2 := new int[1](_ => 1);
    var g3 := new int[1](_ => 1);
    assert g0[..] == [1] && g1[..] == [1] && g2[..] == [1] && g3[..] == [1];
    before := [g0[..], g1[..], g2[..], g3[..]];
    var next := [g0, g1];
    var childA, childB, ok := BreedStepAsWritten(g0, g1, 0, Mutation.Choice(0, true), Mutation.Choice(0, true));
    next := next + [childA, childB];
    assert Mutation.Mutated([1], [Mutation.Choice(0, true)]) == [0];
    after := [next[0][..], next[1][..], next[2][..], next[3][..]];
  }
}
