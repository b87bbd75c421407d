/**
  The puzzle structure the solver reads: the slots of the grid, the shared
  vocabulary and the crossing relation between slots. Grid and word-file
  parsing are not modelled; a puzzle is given directly by these three parts.
 */
module Crossword {

  import opened Wrappers

  datatype Direction = Across | Down

  /** A slot of the grid: start cell, orientation and length. Slots are
      values: two slots with the same geometry are the same slot. */
  datatype Variable = Variable(i: nat, j: nat, direction: Direction, length: nat)

  type Word = string

  /** `overlaps[(x, y)] == (ix, iy)` says that letter `ix` of x's word and
      letter `iy` of y's word share a cell; pairs that do not cross are absent. */
  datatype Puzzle = Puzzle(
    variables: set<Variable>,
    words: set<Word>,
    overlaps: map<(Variable, Variable), (nat, nat)>)

  /** The crossing relation is between distinct slots of the puzzle, is
      symmetric with the indices swapped, and every index lies inside its slot. */
  ghost predicate WellFormed(p: Puzzle) {
    forall x, y :: (x, y) in p.overlaps ==>
      && x in p.variables && y in p.variables && x != y
      && (y, x) in p.overlaps
      && p.overlaps[(y, x)] == (p.overlaps[(x, y)].1, p.overlaps[(x, y)].0)
      && p.overlaps[(x, y)].0 < x.length
      && p.overlaps[(x, y)].1 < y.length
  }

  function Overlap(p: Puzzle, x: Variable, y: Variable): Option<(nat, nat)> {
    if (x, y) in p.overlaps then Some(p.overlaps[(x, y)]) else None
  }

  /** The slots that cross x. */
  function Neighbors(p: Puzzle, x: Variable): set<Variable> {
    set y | y in p.variables && (x, y) in p.overlaps
  }

  /** Words vx for x and vy for y agree at the cell x and y share, if any.
      An index past the end of a word counts as a disagreement. */
  predicate OverlapSatisfied(p: Puzzle, x: Variable, y: Variable, vx: Word, vy: Word) {
    match Overlap(p, x, y)
    case None => true
    case Some((ix, iy)) => ix < |vx| && iy < |vy| && vx[ix] == vy[iy]
  }

  lemma NeighborsSymmetric(p: Puzzle, x: Variable, y: Variable)
    requires WellFormed(p)
    ensures y in Neighbors(p, x) <==> x in Neighbors(p, y)
  {
  }

  lemma OverlapSatisfiedSymmetric(p: Puzzle, x: Variable, y: Variable, vx: Word, vy: Word)
    requires WellFormed(p)
    ensures OverlapSatisfied(p, x, y, vx, vy) == OverlapSatisfied(p, y, x, vy, vx)
  {
  }
}
