/**
  The solver's entry point: node consistency, one full AC-3 pass, then one
  of the two searches from the empty assignment.
 */
module Solver {

  import opened Wrappers
  import opened Crossword
  import opened Domains
  import Consistency
  import Backtracking

  /** A returned assignment fills every slot with a distinct vocabulary word
      of the slot's length, agreeing at every crossing. Without interleaving
      the answer "no solution" is exact: the puzzle has none. The verdict of
      the initial AC-3 pass is not consulted. */
  method Solve(p: Puzzle, interleaving: bool) returns (r: Option<Assignment>)
    requires WellFormed(p)
    ensures r.Some? ==> IsSolution(p, r.value)
    ensures !interleaving && r.None? ==> forall s :: !IsSolution(p, s)
  {
    var initial := InitialDomains(p);
    var d := Consistency.EnforceNodeConsistency(initial);
    var arcOk, pruned := Consistency.AC3(p, d, None);
    SolutionsSurvive(p, initial, d, pruned);
    Backtracking.ShrunkTransitive(initial, d, pruned);
    var after: Assignment;
    if !interleaving {
      r, after := Backtracking.Backtrack(p, pruned, map[]);
      if r.None? {
        NothingMissed(p, pruned);
      }
    } else {
      var storeAfter: Domains;
      r, after, storeAfter := Backtracking.BacktrackAC3(p, pruned, map[]);
    }
    if r.Some? {
      FoundIsSolution(p, initial, pruned, r.value);
    }
  }

  /** Every solution of the puzzle is admitted by the store after node
      consistency and AC-3. */
  lemma SolutionsSurvive(p: Puzzle, initial: Domains, d: Domains, pruned: Domains)
    requires initial == InitialDomains(p)
    requires d.Keys == initial.Keys
    requires forall v, w :: v in initial ==> (w in d[v] <==> w in initial[v] && |w| == v.length)
    requires KeepsSolutions(p, d, pruned)
    ensures forall s :: IsSolution(p, s) ==> SolutionFrom(p, pruned, map[], s)
  {
    forall s | IsSolution(p, s) ensures SolutionFrom(p, pruned, map[], s) {
      assert Within(d, s);
    }
  }

  /** A search that finds no solution of the pruned store misses no solution
      of the puzzle. */
  lemma NothingMissed(p: Puzzle, pruned: Domains)
    requires forall s :: IsSolution(p, s) ==> SolutionFrom(p, pruned, map[], s)
    requires forall s :: !SolutionFrom(p, pruned, map[], s)
    ensures forall s :: !IsSolution(p, s)
  {
  }

  /** What a search from the empty assignment finds over a store pruned from
      the initial one is a solution of the puzzle. */
  lemma FoundIsSolution(p: Puzzle, initial: Domains, pruned: Domains, s: Assignment)
    requires initial == InitialDomains(p)
    requires Shrunk(initial, pruned)
    requires Found(p, pruned, map[], s)
    ensures IsSolution(p, s)
  {
    assert ConsistentAssignment(p, map[]);
  }
}
