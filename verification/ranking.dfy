/** sorted(population, key=fitness_func, reverse=True): order a population best first. */
module Ranking {
  import opened Genomes

  /** In non-increasing order of the key. */
  predicate SortedDesc(pop: Population, key: Genome -> int) {
    forall i, j :: 0 <= i < j < |pop| ==> key(pop[i]) >= key(pop[j])
  }

  /** A genome whose key bounds every key of a sorted population may go in front of it. */
  lemma ConsSorted(h: Genome, t: Population, key: Genome -> int)
    requires SortedDesc(t, key)
    requires forall g :: g in t ==> key(h) >= key(g)
    ensures SortedDesc([h] + t, key)
  {
    forall i, j | 0 <= i < j < |[h] + t|
      ensures key(([h] + t)[i]) >= key(([h] + t)[j])
    {
      if i == 0 {
        assert ([h] + t)[j] == t[j - 1];
        assert t[j - 1] in t;
      }
    }
  }

  /** A genome whose key is at least the first key of a sorted population bounds all of its keys. */
  lemma HeadBound(x: Genome, s: Population, key: Genome -> int)
    requires SortedDesc(s, key)
    requires s == [] || key(s[0]) <= key(x)
    ensures forall g :: g in s ==> key(x) >= key(g)
  {
    forall g | g in s
      ensures key(x) >= key(g)
    {
      var j :| 0 <= j < |s| && s[j] == g;
    }
  }

  /** Inserting into the tail of a sorted population keeps every key at most the head's. */
  lemma TailBound(x: Genome, s: Population, rest: Population, key: Genome -> int)
    requires SortedDesc(s, key) && s != [] && key(s[0]) > key(x)
    requires multiset(rest) == multiset(s[1..]) + multiset{x}
    ensures forall g :: g in rest ==> key(s[0]) >= key(g)
  {
    forall g | g in rest
      ensures key(s[0]) >= key(g)
    {
      assert g in multiset(rest);
      if g != x {
        assert g in multiset(s[1..]);
        var j :| 0 <= j < |s[1..]| && s[1..][j] == g;
        assert s[j + 1] == g;
      }
    }
  }

  /** Put x before the first genome whose key is not above x's. */
  function Insert(x: Genome, s: Population, key: Genome -> int): (r: Population)
    requires SortedDesc(s, key)
    ensures SortedDesc(r, key)
    ensures multiset(r) == multiset(s) + multiset{x}
    decreases |s|
  {
    if s == [] || key(s[0]) <= key(x) then
      HeadBound(x, s, key);
      ConsSorted(x, s, key);
      [x] + s
    else
      var rest := Insert(x, s[1..], key);
      TailBound(x, s, rest, key);
      ConsSorted(s[0], rest, key);
      assert s == [s[0]] + s[1..];
      [s[0]] + rest
  }

  /**
   * The population sorted best first by the key; among genomes with equal keys the earlier one
   * stays first, as with Python's stable sort.
   */
  function SortByFitness(pop: Population, key: Genome -> int): (r: Population)
    ensures SortedDesc(r, key)
    ensures multiset(r) == multiset(pop)
    decreases |pop|
  {
    if pop == [] then []
    else
      assert pop == [pop[0]] + pop[1..];
      Insert(pop[0], SortByFitness(pop[1..], key), key)
  }

  /** Sorting keeps the population's size and its members. */
  lemma SortKeepsMembers(pop: Population, key: Genome -> int)
    ensures |SortByFitness(pop, key)| == |pop|
    ensures forall g :: g in SortByFitness(pop, key) <==> g in pop
  {
    var r := SortByFitness(pop, key);
    assert |multiset(r)| == |multiset(pop)|;
    forall g
      ensures g in r <==> g in pop
    {
      assert g in r <==> g in multiset(r);
      assert g in pop <==> g in multiset(pop);
    }
  }

  /** The first genome of the sorted population has a key at least that of every member. */
  lemma SortedHeadIsBest(pop: Population, key: Genome -> int)
    requires pop != []
    ensures SortByFitness(pop, key) != []
    ensures forall g :: g in pop ==> key(SortByFitness(pop, key)[0]) >= key(g)
  {
    var r := SortByFitness(pop, key);
    SortKeepsMembers(pop, key);
    forall g | g in pop
      ensures key(r[0]) >= key(g)
    {
      var j :| 0 <= j < |r| && r[j] == g;
    }
  }

  /** Sorting an already sorted population changes nothing. */
  lemma {:induction false} SortIdempotent(pop: Population, key: Genome -> int)
    requires SortedDesc(pop, key)
    ensures SortByFitness(pop, key) == pop
    decreases |pop|
  {
    if pop != [] {
      SortIdempotent(pop[1..], key);
    }
  }
}
