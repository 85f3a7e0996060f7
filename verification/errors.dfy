/** The exceptions the genetic algorithm can raise, and the result type that carries them. */
module Errors {

  /** One constructor per exception the core raises, named after its cause. */
  datatype Error =
    | GenomeLengthMismatch   // fitness: ValueError, genome and things differ in length
    | ParentLengthMismatch   // single_point_crossover: ValueError, parents differ in length
    | EmptyRandrange         // mutation: ValueError from randrange(0) on an empty genome
    | EmptyPopulation        // run_evolution: IndexError on population[0]
    | UnboundGeneration      // run_evolution: UnboundLocalError, the loop variable was never bound
    | GeneIndexOutOfRange    // genome_to_things: IndexError, genome shorter than the catalogue

  datatype Result<+T> = Ok(value: T) | Err(error: Error)
}
