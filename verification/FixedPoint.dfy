/** Bounded iteration of a step function to its first unchanged round. */
module FixedPoint {

  datatype Outcome<T> = Outcome(table: T, exhausted: bool, iterations: nat)

  function Iterate<T>(step: T -> T, t: T, k: nat): T {
    if k == 0 then t else step(Iterate(step, t, k - 1))
  }

  /** Rounds `i`, `i + 1`, ... up to the bound, stopping at the first that changes nothing. */
  function RunFrom<T(==)>(step: T -> T, t: T, i: nat, maxIterations: nat): Outcome<T>
    requires 1 <= i <= maxIterations
    decreases maxIterations - i
  {
    var next := step(t);
    if next == t then Outcome(t, false, i)
    else if i == maxIterations then Outcome(next, true, i)
    else RunFrom(step, next, i + 1, maxIterations)
  }

  lemma {:induction false} RunFromMeaning<T>(step: T -> T, t: T, i: nat, maxIterations: nat)
    requires 1 <= i <= maxIterations
    ensures var o := RunFrom(step, Iterate(step, t, i - 1), i, maxIterations);
            && i <= o.iterations <= maxIterations
            && o.table == Iterate(step, t, o.iterations)
            && (o.exhausted ==> o.iterations == maxIterations)
            && (!o.exhausted <==> Iterate(step, t, o.iterations - 1) == o.table)
            && (forall j :: i <= j < o.iterations ==> Iterate(step, t, j) != Iterate(step, t, j - 1))
    decreases maxIterations - i
  {
    var here := Iterate(step, t, i - 1);
    assert step(here) == Iterate(step, t, i);
    if step(here) != here && i < maxIterations {
      RunFromMeaning(step, t, i + 1, maxIterations);
    }
  }

  /** The reported iteration is the first round that changes nothing, the returned table is the
      one after that many rounds, and the run is exhausted exactly when no round within the bound
      changes nothing. */
  lemma RunMeaning<T>(step: T -> T, t: T, maxIterations: nat)
    requires maxIterations >= 1
    ensures var o := RunFrom(step, t, 1, maxIterations);
            && 1 <= o.iterations <= maxIterations
            && o.table == Iterate(step, t, o.iterations)
            && (o.exhausted <==> forall j :: 1 <= j <= maxIterations ==>
                                   Iterate(step, t, j) != Iterate(step, t, j - 1))
            && (forall j :: 1 <= j < o.iterations ==> Iterate(step, t, j) != Iterate(step, t, j - 1))
            && (!o.exhausted ==> step(o.table) == o.table)
  {
    assert Iterate(step, t, 0) == t;
    RunFromMeaning(step, t, 1, maxIterations);
    var o := RunFrom(step, t, 1, maxIterations);
    assert Iterate(step, t, o.iterations) == step(Iterate(step, t, o.iterations - 1));
  }

  /** Once a round changes nothing, no later round does. */
  lemma {:induction false} StableForever<T>(step: T -> T, t: T, j: nat, k: nat)
    requires j <= k && step(Iterate(step, t, j)) == Iterate(step, t, j)
    ensures Iterate(step, t, k) == Iterate(step, t, j)
    decreases k
  {
    if j < k { StableForever(step, t, j, k - 1); }
  }

  lemma StopsBy<T>(step: T -> T, t: T, n: nat, maxIterations: nat)
    requires 1 <= n <= maxIterations && Iterate(step, t, n) == Iterate(step, t, n - 1)
    ensures !RunFrom(step, t, 1, maxIterations).exhausted && 1 <= RunFrom(step, t, 1, maxIterations).iterations <= n
  {
    RunMeaning(step, t, maxIterations);
  }
}
