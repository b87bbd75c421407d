/**
  Small concrete puzzles checked against the contracts of the model: two slots of
  length three crossing in one cell, with word lists that do and do not admit
  a fill.
 */
module Instances {

  import opened Wrappers
  import opened Crossword
  import opened Domains
  import Consistency
  import Solver

  /** A slot across from (1, 0) and a slot down from (0, 1): both pass
      through cell (1, 1), which is letter 1 of each. */
  const MidAcross := Variable(1, 0, Across, 3)
  const MidDown := Variable(0, 1, Down, 3)

  function MiddleCross(words: set<Word>): Puzzle {
    Puzzle({MidAcross, MidDown}, words,
      map[(MidAcross, MidDown) := (1, 1), (MidDown, MidAcross) := (1, 1)])
  }

  /** A slot across from (0, 0) and a slot down from (0, 2): the last letter
      of the across word is the first letter of the down word. */
  const TopAcross := Variable(0, 0, Across, 3)
  const RightDown := Variable(0, 2, Down, 3)

  function CornerCross(words: set<Word>): Puzzle {
    Puzzle({TopAcross, RightDown}, words,
      map[(TopAcross, RightDown) := (2, 0), (RightDown, TopAcross) := (0, 2)])
  }

  /** "cat" and "art" differ in their middle letters, so the two slots
      crossing in the middle cannot be filled from them. */
  lemma CatArtUnsolvable(s: Assignment)
    ensures !IsSolution(MiddleCross({"cat", "art"}), s)
  {
    var p := MiddleCross({"cat", "art"});
    if IsSolution(p, s) {
      assert false;
    }
  }

  /** Either search variant reports that the middle crossing cannot be
      filled from "cat" and "art". */
  method SolveCatArt(interleaving: bool) returns (r: Option<Assignment>)
    ensures r == None
  {
    var p := MiddleCross({"cat", "art"});
    r := Solver.Solve(p, interleaving);
    if r.Some? {
      CatArtUnsolvable(r.value);
    }
  }

  /** With a single word, AC-3 on two crossing slots must fail: no word has a
      distinct partner, so the first revision empties a domain. */
  method SingleWordFails() returns (ok: bool, r: Domains)
    ensures r.Keys == {MidAcross, MidDown}
    ensures !ok && (r[MidAcross] == {} || r[MidDown] == {})
  {
    var p := MiddleCross({"cat"});
    var d: Domains := map[MidAcross := {"cat"}, MidDown := {"cat"}];
    ok, r := Consistency.AC3(p, d, None);
    if ok {
      assert false;
    }
  }

  /** Two slots that do not cross, with the single word "cat": the full
      queue holds both ordered pairs anyway, and since a partner must be a
      different word, AC-3 fails. */
  method ParallelSingleWordFails() returns (ok: bool, r: Domains)
    ensures r.Keys == {TopAcross, MidAcross}
    ensures !ok && (r[TopAcross] == {} || r[MidAcross] == {})
  {
    var p := Puzzle({TopAcross, MidAcross}, {"cat"}, map[]);
    var d: Domains := map[TopAcross := {"cat"}, MidAcross := {"cat"}];
    ok, r := Consistency.AC3(p, d, None);
    if ok {
      assert false;
    }
  }

  /** "cat" across and "tar" down share their "t": the only fill of the
      corner crossing from these two words. */
  lemma CatTarOnlySolution(s: Assignment)
    ensures IsSolution(CornerCross({"cat", "tar"}), s) <==> s == map[TopAcross := "cat", RightDown := "tar"]
  {
    var p := CornerCross({"cat", "tar"});
    var fill := map[TopAcross := "cat", RightDown := "tar"];
    if IsSolution(p, s) {
      assert TopAcross in s && RightDown in s;
      assert RightDown in Neighbors(p, TopAcross);
      assert OverlapSatisfied(p, TopAcross, RightDown, s[TopAcross], s[RightDown]);
      assert s[TopAcross] in {"cat", "tar"} && s[RightDown] in {"cat", "tar"};
      assert s[TopAcross] == "cat" && s[RightDown] == "tar";
      assert s == fill;
    }
    if s == fill {
      assert Neighbors(p, TopAcross) == {RightDown};
      assert Neighbors(p, RightDown) == {TopAcross};
      assert OverlapSatisfied(p, TopAcross, RightDown, "cat", "tar");
      assert OverlapSatisfied(p, RightDown, TopAcross, "tar", "cat");
    }
  }

  /** Plain backtracking finds the corner fill, and it is the only one. */
  method SolveCatTar() returns (r: Option<Assignment>)
    ensures r == Some(map[TopAcross := "cat", RightDown := "tar"])
  {
    var p := CornerCross({"cat", "tar"});
    r := Solver.Solve(p, false);
    CatTarOnlySolution(map[TopAcross := "cat", RightDown := "tar"]);
    if r.Some? {
      CatTarOnlySolution(r.value);
    }
  }
}
