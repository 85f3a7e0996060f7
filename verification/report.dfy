/** genome_to_things: the names of the selected things, for reporting. */
module Report {
  import opened Errors
  import opened Genomes
  import opened Knapsack

  /** The positions below n whose gene is exactly 1, in increasing order. */
  function SelectedIndices(g: Genome, n: nat): (r: seq<nat>)
    requires n <= |g|
    ensures forall m :: 0 <= m < |r| ==> r[m] < n && g[r[m]] == 1
    ensures forall k :: 0 <= k < n && g[k] == 1 ==> k in r
    ensures forall m, m' :: 0 <= m < m' < |r| ==> r[m] < r[m']
  {
    if n == 0 then []
    else SelectedIndices(g, n - 1) + (if g[n - 1] == 1 then [n - 1] else [])
  }

  /** The names collected from the first n things. */
  function Names(g: Genome, things: seq<Thing>, n: nat): seq<string>
    requires n <= |g| && n <= |things|
  {
    if n == 0 then []
    else Names(g, things, n - 1) + (if g[n - 1] == 1 then [things[n - 1].name] else [])
  }

  /** The collected names are those of exactly the selected things, in catalogue order. */
  lemma {:induction false} NamesOfSelected(g: Genome, things: seq<Thing>, n: nat)
    requires n <= |g| && n <= |things|
    ensures |Names(g, things, n)| == |SelectedIndices(g, n)|
    ensures forall m :: 0 <= m < |Names(g, things, n)| ==>
              Names(g, things, n)[m] == things[SelectedIndices(g, n)[m]].name
  {
    if n > 0 {
      NamesOfSelected(g, things, n - 1);
    }
  }

  /**
   * genome_to_things: walks the catalogue and collects the name of each thing whose gene is 1.
   * A genome shorter than the catalogue makes the lookup genome[i] fail.
   */
  method GenomeToThings(genome: Genome, things: seq<Thing>) returns (r: Result<seq<string>>)
    ensures r.Err? <==> |genome| < |things|
    ensures r.Err? ==> r.error == GeneIndexOutOfRange
    ensures r.Ok? ==> r.value == Names(genome, things, |things|)
  {
    if |genome| < |things| {
      return Err(GeneIndexOutOfRange);
    }
    var result: seq<string> := [];
    for i := 0 to |things|
      invariant result == Names(genome, things, i)
    {
      if genome[i] == 1 {
        result := result + [things[i].name];
      }
    }
    return Ok(result);
  }
}
