/**
  The assignment check and the two ordering heuristics the backtracking
  searches use: fewest candidates first for slots, least constraining first
  for words.
 */
module Search {

  import opened Crossword
  import opened Domains

  /** Checks an assignment slot by slot, in any order: a word already used by
      an earlier slot, a word of the wrong length, or a disagreement with an
      assigned crossing slot makes it inconsistent. */
  method Consistent(p: Puzzle, a: Assignment) returns (ok: bool)
    ensures ok <==> ConsistentAssignment(p, a)
  {
    var processed: seq<Word> := [];
    var todo := a.Keys;
    while todo != {}
      invariant todo <= a.Keys
      invariant forall w :: w in processed <==> exists x :: x in a && x !in todo && a[x] == w
      invariant forall x, y :: x in a && y in a && x !in todo && y !in todo && x != y ==> a[x] != a[y]
      invariant forall x :: x in a && x !in todo ==> |a[x]| == x.length
      invariant forall x, y :: x in a && x !in todo && y in a && y in Neighbors(p, x) ==> OverlapSatisfied(p, x, y, a[x], a[y])
      decreases todo
    {
      var x :| x in todo;
      var vx := a[x];
      if vx in processed {
        return false;
      }
      processed := processed + [vx];
      if |vx| != x.length {
        return false;
      }
      var ys := Neighbors(p, x);
      while ys != {}
        invariant ys <= Neighbors(p, x)
        invariant forall y :: y in a && y in Neighbors(p, x) && y !in ys ==> OverlapSatisfied(p, x, y, vx, a[y])
        decreases ys
      {
        var y :| y in ys;
        if y in a {
          if !OverlapSatisfied(p, x, y, vx, a[y]) {
            return false;
          }
        }
        ys := ys - {y};
      }
      todo := todo - {x};
    }
    return true;
  }

  /** The number of (crossing slot, candidate) pairs that `value` for v
      disagrees with at the crossing: the candidates it would rule out. */
  function RuleOut(p: Puzzle, d: Domains, v: Variable, value: Word): nat {
    |set z, w | z in Neighbors(p, v) && z in d && w in d[z] && !OverlapSatisfied(p, v, z, value, w) :: (z, w)|
  }

  /** A candidate of least rule-out count; ties are broken arbitrarily. */
  method LeastConstraining(p: Puzzle, d: Domains, v: Variable, candidates: set<Word>) returns (best: Word)
    requires candidates != {}
    ensures best in candidates
    ensures forall w :: w in candidates ==> RuleOut(p, d, v, best) <= RuleOut(p, d, v, w)
  {
    best :| best in candidates;
    var bestCount := RuleOut(p, d, v, best);
    var rest := candidates - {best};
    while rest != {}
      invariant rest <= candidates && best in candidates
      invariant bestCount == RuleOut(p, d, v, best)
      invariant forall w :: w in candidates && w !in rest ==> bestCount <= RuleOut(p, d, v, w)
      decreases rest
    {
      var w :| w in rest;
      var count := RuleOut(p, d, v, w);
      if count < bestCount {
        best, bestCount := w, count;
      }
      rest := rest - {w};
    }
  }

  /** The candidates of v, each once, from fewest to most ruled-out
      candidates of crossing slots. The assignment is not consulted. */
  method OrderDomainValues(p: Puzzle, d: Domains, v: Variable, a: Assignment) returns (out: seq<Word>)
    requires v in d
    ensures forall w :: w in out <==> w in d[v]
    ensures forall i, j :: 0 <= i < j < |out| ==> out[i] != out[j]
    ensures forall i, j :: 0 <= i <= j < |out| ==> RuleOut(p, d, v, out[i]) <= RuleOut(p, d, v, out[j])
  {
    out := [];
    var rest := d[v];
    while rest != {}
      invariant rest <= d[v]
      invariant forall w :: w in out <==> w in d[v] && w !in rest
      invariant forall i, j :: 0 <= i < j < |out| ==> out[i] != out[j]
      invariant forall i, j :: 0 <= i <= j < |out| ==> RuleOut(p, d, v, out[i]) <= RuleOut(p, d, v, out[j])
      invariant forall i, w :: 0 <= i < |out| && w in rest ==> RuleOut(p, d, v, out[i]) <= RuleOut(p, d, v, w)
      decreases rest
    {
      var next := LeastConstraining(p, d, v, rest);
      out := out + [next];
      rest := rest - {next};
    }
  }

  /** v is at least as good a next slot as u: fewer candidates, or as many
      and at least as many crossing slots. */
  predicate Preferred(p: Puzzle, d: Domains, v: Variable, u: Variable) {
    v in d && u in d &&
    (|d[v]| < |d[u]| || (|d[v]| == |d[u]| && |Neighbors(p, v)| >= |Neighbors(p, u)|))
  }

  /** An unassigned slot of fewest candidates, of most crossing slots among
      those; ties are broken arbitrarily. */
  method SelectUnassignedVariable(p: Puzzle, d: Domains, a: Assignment) returns (v: Variable)
    requires !AssignmentComplete(d, a)
    ensures v in d && v !in a
    ensures forall u :: u in d && u !in a ==> Preferred(p, d, v, u)
  {
    var unassigned := d.Keys - a.Keys;
    ghost var missing :| missing in d && missing !in a;
    assert missing in unassigned;
    v :| v in unassigned;
    var rest := unassigned - {v};
    while rest != {}
      invariant rest <= unassigned && v in unassigned
      invariant forall u :: u in unassigned && u !in rest ==> Preferred(p, d, v, u)
      decreases rest
    {
      var u :| u in rest;
      if !Preferred(p, d, v, u) {
        v := u;
      }
      rest := rest - {u};
    }
  }
}
