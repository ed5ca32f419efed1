/**
 * Chromosome of the genetic optimiser: a genome, its fitness cached until the
 * next mutation, and an ordering that puts fitter chromosomes first.
 */
module Genetic {

  /** `Double.compare(a, b)` on reals: the sign of a - b. */
  function Compare(a: real, b: real): (r: int)
    ensures r < 0 <==> a < b
    ensures r == 0 <==> a == b
    ensures r > 0 <==> a > b
    ensures -1 <= r <= 1
  {
    if a < b then -1 else if a > b then 1 else 0
  }

  /**
   * A chromosome over genomes of type G.  `evaluate` is the subclass's
   * computeFitness() and `mutate` its computeMutation(), both taken as
   * functions of the genome.
   */
  class Chromosome<G> {
    const evaluate: G -> real
    const mutate: G -> G
    var genome: G
    /** The cached fitness; Java's default 0.0 until first computed. */
    var fitness: real
    /** Whether `fitness` holds the fitness of the current genome. */
    var computeFitness: bool
    /** How many times computeFitness() has run. */
    ghost var evaluations: nat

    /** The cache never holds a stale value. */
    ghost predicate Valid()
      reads this
    {
      computeFitness ==> fitness == evaluate(genome)
    }

    constructor (genome: G, evaluate: G -> real, mutate: G -> G)
      ensures Valid()
      ensures this.genome == genome && this.evaluate == evaluate && this.mutate == mutate
      ensures !computeFitness && fitness == 0.0 && evaluations == 0
    {
      this.genome := genome;
      this.evaluate := evaluate;
      this.mutate := mutate;
      fitness := 0.0;
      computeFitness := false;
      evaluations := 0;
    }

    /**
     * fitness(): the fitness of the current genome, computed only when the
     * cache is invalid, which it then validates.
     */
    method Fitness() returns (r: real)
      requires Valid()
      modifies this
      ensures Valid() && computeFitness
      ensures r == evaluate(genome) && fitness == r
      ensures genome == old(genome)
      ensures evaluations == if old(computeFitness) then old(evaluations) else old(evaluations) + 1
      ensures old(computeFitness) ==> fitness == old(fitness)
    {
      if !computeFitness {
        fitness := evaluate(genome);
        evaluations := evaluations + 1;
        computeFitness := true;
      }
      r := fitness;
    }

    /** mutation(): invalidates the cache, then mutates the genome. */
    method Mutation()
      requires Valid()
      modifies this
      ensures Valid() && !computeFitness
      ensures genome == mutate(old(genome))
      ensures fitness == old(fitness) && evaluations == old(evaluations)
    {
      computeFitness := false;
      genome := mutate(genome);
    }

    /**
     * compareTo(o): `Double.compare(o.fitness, this.fitness)`, read from the
     * fields, so the fitter chromosome comes first.
     */
    function CompareTo(o: Chromosome<G>): (r: int)
      reads this, o
      ensures r < 0 <==> fitness > o.fitness
      ensures r > 0 <==> fitness < o.fitness
      ensures r == 0 <==> fitness == o.fitness
    {
      Compare(o.fitness, fitness)
    }
  }

  /** A second call of fitness() returns the cached value and computes nothing. */
  method FitnessTwice<G>(c: Chromosome<G>) returns (first: real, second: real)
    requires c.Valid()
    modifies c
    ensures first == second == c.evaluate(old(c.genome))
    ensures c.evaluations <= old(c.evaluations) + 1
  {
    first := c.Fitness();
    second := c.Fitness();
  }

  /** compareTo is antisymmetric. */
  lemma CompareAntisymmetric(a: real, b: real)
    ensures Compare(a, b) == -Compare(b, a)
  {
  }

  /** compareTo is transitive. */
  lemma CompareTransitive(a: real, b: real, c: real)
    requires Compare(a, b) <= 0 && Compare(b, c) <= 0
    ensures Compare(a, c) <= 0
  {
  }

  /**
   * Fitness values in an order where each compares at most equal to the
   * next, as a sort by compareTo leaves them, are non-increasing.
   */
  lemma {:induction false} SortedByCompareIsDescending(fs: seq<real>)
    requires forall i :: 0 <= i < |fs| - 1 ==> Compare(fs[i + 1], fs[i]) <= 0
    ensures forall i, j :: 0 <= i <= j < |fs| ==> fs[i] >= fs[j]
    decreases |fs|
  {
    if |fs| > 1 {
      SortedByCompareIsDescending(fs[1..]);
      forall i, j | 0 <= i <= j < |fs|
        ensures fs[i] >= fs[j]
      {
        if 0 < i {
          assert fs[i] == fs[1..][i - 1] && fs[j] == fs[1..][j - 1];
        } else if 0 < j {
          assert fs[1] == fs[1..][0] && fs[j] == fs[1..][j - 1];
        }
      }
    }
  }
}
