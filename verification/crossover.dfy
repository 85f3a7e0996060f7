/** single_point_crossover: swap the parents' tails at a split point. */
module Crossover {
  import opened Errors
  import opened Genomes

  /**
   * Parents of different lengths are an error; parents shorter than 2 come back unchanged;
   * otherwise the children take the head (positions below p) of one parent and the tail of
   * the other. The split p is the draw randint(1, length - 1).
   */
  function SinglePointCrossover(a: Genome, b: Genome, p: nat): (r: Result<(Genome, Genome)>)
    requires |a| == |b| >= 2 ==> 1 <= p <= |a| - 1
    ensures r.Err? <==> |a| != |b|
    ensures r.Err? ==> r.error == ParentLengthMismatch
    ensures r.Ok? && |a| < 2 ==> r.value == (a, b)
    ensures r.Ok? ==> |r.value.0| == |a| && |r.value.1| == |a|
    ensures r.Ok? && |a| >= 2 ==> forall i :: 0 <= i < |a| ==>
              && r.value.0[i] == (if i < p then a[i] else b[i])
              && r.value.1[i] == (if i < p then b[i] else a[i])
  {
    if |a| != |b| then Err(ParentLengthMismatch)
    else if |a| < 2 then Ok((a, b))
    else Ok((a[..p] + b[p..], b[..p] + a[p..]))
  }

  /** Crossing the two children again at the same split gives back the parents. */
  lemma CrossoverUndone(a: Genome, b: Genome, p: nat)
    requires |a| == |b| >= 2 && 1 <= p <= |a| - 1
    ensures var (ca, cb) := SinglePointCrossover(a, b, p).value;
            SinglePointCrossover(ca, cb, p) == Ok((a, b))
  {
    var (ca, cb) := SinglePointCrossover(a, b, p).value;
    var (a', b') := SinglePointCrossover(ca, cb, p).value;
    assert a' == a;
    assert b' == b;
  }

  /** At every position the two children hold the two parents' genes, so binary parents give binary children. */
  lemma CrossoverKeepsBinary(a: Genome, b: Genome, p: nat)
    requires |a| == |b| >= 2 ==> 1 <= p <= |a| - 1
    requires IsBinary(a) && IsBinary(b)
    ensures var r := SinglePointCrossover(a, b, p);
            r.Ok? ==> IsBinary(r.value.0) && IsBinary(r.value.1)
  {
  }

  /** Together the children carry exactly the parents' genes: a crossover only redistributes. */
  lemma CrossoverKeepsGenes(a: Genome, b: Genome, p: nat)
    requires |a| == |b| >= 2 ==> 1 <= p <= |a| - 1
    ensures var r := SinglePointCrossover(a, b, p);
            r.Ok? ==> multiset(r.value.0) + multiset(r.value.1) == multiset(a) + multiset(b)
  {
    if |a| == |b| >= 2 {
      assert a == a[..p] + a[p..];
      assert b == b[..p] + b[p..];
    }
  }
}
