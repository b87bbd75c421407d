/**
  The two backtracking searches: plain, and interleaved with AC-3 after
  every tentative choice. Each tries the candidates of the selected slot in
  turn; trying one candidate is split out as its own operation.
 */
module Backtracking {

  import opened Wrappers
  import opened Crossword
  import opened Domains
  import Consistency
  import Search

  /** Assigning one more slot of the store leaves fewer unassigned. */
  lemma FewerUnassigned(d: Domains, a: Assignment, v: Variable, w: Word)
    requires v in d && v !in a
    ensures |d.Keys - a[v := w].Keys| < |d.Keys - a.Keys|
  {
    assert d.Keys - a[v := w].Keys == (d.Keys - a.Keys) - {v};
  }

  /** Deleting the slot just assigned restores the assignment. */
  lemma UndoChoice(asg: Assignment, v: Variable, w: Word)
    requires v !in asg
    ensures asg[v := w] - {v} == asg
  {
  }

  /** A result found from the extended assignment a, over a store `inner`
      pruned from d, is a result found from asg over d. */
  lemma FoundLifts(p: Puzzle, d: Domains, inner: Domains, asg: Assignment, v: Variable, value: Word, a: Assignment, s: Assignment)
    requires v in d && v !in asg && value in d[v] && a == asg[v := value]
    requires Shrunk(d, inner)
    requires Found(p, inner, a, s) && ConsistentAssignment(p, a)
    ensures Found(p, d, asg, s)
  {
  }

  /** A choice for v that is inconsistent, or from which the search found
      nothing, is taken by no solution that keeps the entry choices. */
  lemma ValueExcluded(p: Puzzle, d: Domains, asg: Assignment, v: Variable, value: Word, a: Assignment)
    requires v in d && a == asg[v := value]
    requires !ConsistentAssignment(p, a) || forall s :: !SolutionFrom(p, d, a, s)
    ensures forall s :: SolutionFrom(p, d, asg, s) ==> s[v] != value
  {
    forall s | SolutionFrom(p, d, asg, s) ensures s[v] != value {
      if s[v] == value {
        RestrictionConsistent(p, s, a);
        assert SolutionFrom(p, d, a, s);
      }
    }
  }

  /** No solution keeping the choices of asg gives v one of the words tried. */
  ghost predicate Excluded(p: Puzzle, d: Domains, asg: Assignment, v: Variable, tried: seq<Word>) {
    forall s :: SolutionFrom(p, d, asg, s) ==> v in s && s[v] !in tried
  }

  lemma ExcludedStep(p: Puzzle, d: Domains, asg: Assignment, v: Variable, values: seq<Word>, i: nat)
    requires i < |values| && v in d
    requires Excluded(p, d, asg, v, values[..i])
    requires forall s :: SolutionFrom(p, d, asg, s) ==> s[v] != values[i]
    ensures Excluded(p, d, asg, v, values[..i + 1])
  {
    assert values[..i + 1] == values[..i] + [values[i]];
  }

  /** Once every candidate of v has been tried, no solution keeps the choices of asg. */
  lemma ExcludedAll(p: Puzzle, d: Domains, asg: Assignment, v: Variable, values: seq<Word>)
    requires v in d && forall w :: w in values <==> w in d[v]
    requires Excluded(p, d, asg, v, values[..|values|])
    ensures forall s :: !SolutionFrom(p, d, asg, s)
  {
    assert values[..|values|] == values;
  }

  /** One candidate of plain backtracking: assign it, and if the assignment
      stays consistent search on; on failure the slot is unassigned again. */
  method TryValue(p: Puzzle, d: Domains, asg: Assignment, v: Variable, value: Word)
    returns (r: Option<Assignment>, after: Assignment)
    requires v in d && v !in asg && value in d[v]
    ensures r.None? ==> after == asg
    ensures r.Some? ==> after == r.value && Found(p, d, asg, r.value)
    ensures r.None? ==> forall s :: SolutionFrom(p, d, asg, s) ==> s[v] != value
    decreases |d.Keys - asg.Keys|, 0
  {
    var a := asg[v := value];
    var ok := Search.Consistent(p, a);
    if ok {
      FewerUnassigned(d, asg, v, value);
      var result, a' := Backtrack(p, d, a);
      if result.Some? {
        FoundLifts(p, d, d, asg, v, value, a, result.value);
        return result, a';
      }
      a := a';
    }
    ValueExcluded(p, d, asg, v, value, a);
    UndoChoice(asg, v, value);
    return None, a - {v};
  }

  /** Plain backtracking. The assignment is threaded through: `after` is its
      state when the call returns, which is the result itself on success and
      the entry state on failure. A success fills every slot, keeps the entry
      choices, takes every new word from its slot's domain, and is consistent
      whenever the entry assignment is; a failure means no solution of the
      store keeps the entry choices. */
  method Backtrack(p: Puzzle, d: Domains, asg: Assignment) returns (r: Option<Assignment>, after: Assignment)
    ensures r.None? ==> after == asg
    ensures r.Some? ==> after == r.value && Found(p, d, asg, r.value)
    ensures r.None? ==> forall s :: !SolutionFrom(p, d, asg, s)
    decreases |d.Keys - asg.Keys|, 1
  {
    if AssignmentComplete(d, asg) {
      return Some(asg), asg;
    }
    var v := Search.SelectUnassignedVariable(p, d, asg);
    var values := Search.OrderDomainValues(p, d, v, asg);
    var a := asg;
    var i := 0;
    while i < |values|
      invariant 0 <= i <= |values|
      invariant a == asg
      invariant Excluded(p, d, asg, v, values[..i])
    {
      var result;
      result, a := TryValue(p, d, a, v, values[i]);
      if result.Some? {
        return result, a;
      }
      ExcludedStep(p, d, asg, v, values, i);
      i := i + 1;
    }
    ExcludedAll(p, d, asg, v, values);
    return None, a;
  }

  /** Setting v's domain to one of its candidates shrinks the store. */
  lemma CollapseShrinks(d: Domains, current: Domains, v: Variable, value: Word)
    requires Shrunk(d, current) && v in d && value in d[v]
    ensures Shrunk(d, current[v := {value}])
  {
  }

  lemma ShrunkTransitive(d: Domains, m: Domains, r: Domains)
    requires Shrunk(d, m) && Shrunk(m, r)
    ensures Shrunk(d, r)
  {
  }

  /** Collapses v's domain to the chosen word and runs AC-3 on the arcs
      (z, v) for every slot z crossing v. The verdict of AC-3 is not
      consulted; when v crosses nothing the queue is empty and AC-3 revises
      every ordered pair of slots. */
  method Propagate(p: Puzzle, current: Domains, v: Variable, value: Word) returns (pruned: Domains)
    requires WellFormed(p) && current.Keys == p.variables && v in current
    ensures Shrunk(current[v := {value}], pruned)
    ensures forall s :: Within(current, s) && ConsistentAssignment(p, s) && v in s && s[v] == value ==> Within(pruned, s)
    ensures || (exists u :: u in pruned && pruned[u] == {})
            || forall z, w :: z in Neighbors(p, v) && w in pruned[z] ==> Compatible(p, z, v, w, value)
  {
    var collapsed := current[v := {value}];
    var arcs := Consistency.ArcsInto(p, v, {});
    var propagated;
    propagated, pruned := Consistency.AC3(p, collapsed, Some(arcs));
    forall s | Within(current, s) && ConsistentAssignment(p, s) && v in s && s[v] == value
      ensures Within(pruned, s)
    {
      assert Within(collapsed, s);
    }
    if propagated {
      forall z, w | z in Neighbors(p, v) && w in pruned[z]
        ensures Compatible(p, z, v, w, value)
      {
        assert (z, v) in arcs;
        assert Supported(p, pruned, z, v, w);
      }
    }
  }

  /** One candidate of interleaved backtracking, tried on the store object
      whose contents are `current`: assign it; if the assignment stays
      consistent, collapse v's domain, propagate and search on. The object
      ends with contents `currentAfter`. Both stores are pruned from d. */
  method TryValueAC3(p: Puzzle, d: Domains, current: Domains, asg: Assignment, v: Variable, value: Word)
    returns (r: Option<Assignment>, after: Assignment, currentAfter: Domains)
    requires WellFormed(p) && d.Keys == p.variables
    requires Shrunk(d, current) && v in d && v !in asg && value in d[v]
    ensures r.None? ==> after == asg
    ensures r.Some? ==> after == r.value && Found(p, d, asg, r.value)
    ensures Shrunk(d, currentAfter)
    decreases |d.Keys - asg.Keys|, 0
  {
    var a := asg[v := value];
    currentAfter := current;
    var ok := Search.Consistent(p, a);
    if ok {
      CollapseShrinks(d, current, v, value);
      var pruned := Propagate(p, current, v, value);
      ShrunkTransitive(d, current[v := {value}], pruned);
      FewerUnassigned(d, asg, v, value);
      var result, a', prunedAfter := BacktrackAC3(p, pruned, a);
      ShrunkTransitive(d, pruned, prunedAfter);
      currentAfter := prunedAfter;
      if result.Some? {
        FoundLifts(p, d, pruned, asg, v, value, a, result.value);
        return result, a', currentAfter;
      }
      a := a';
    }
    UndoChoice(asg, v, value);
    return None, a - {v}, currentAfter;
  }

  /** Backtracking interleaved with AC-3. Domain stores are mutable objects
      in the source: this call may change the store object that is current on
      entry, and `entryAfter` is that object's final contents. A snapshot of
      the entry store is taken once, before the candidates are tried; after
      each candidate the snapshot object itself becomes the current store, so
      the first candidate works on the entry object and every later one on the
      snapshot, which earlier candidates may already have pruned. The
      assignment is threaded as in `Backtrack`. */
  method BacktrackAC3(p: Puzzle, d: Domains, asg: Assignment)
    returns (r: Option<Assignment>, after: Assignment, entryAfter: Domains)
    requires WellFormed(p) && d.Keys == p.variables
    ensures r.None? ==> after == asg
    ensures r.Some? ==> after == r.value && Found(p, d, asg, r.value)
    ensures Shrunk(d, entryAfter)
    decreases |d.Keys - asg.Keys|, 1
  {
    if AssignmentComplete(d, asg) {
      return Some(asg), asg, d;
    }
    var v := Search.SelectUnassignedVariable(p, d, asg);
    var entry := d;
    var snapshot := d;
    var onSnapshot := false;
    var values := Search.OrderDomainValues(p, d, v, asg);
    var a := asg;
    var i := 0;
    while i < |values|
      invariant 0 <= i <= |values|
      invariant a == asg
      invariant Shrunk(d, entry) && Shrunk(d, snapshot)
    {
      var result, storeAfter;
      if onSnapshot {
        result, a, storeAfter := TryValueAC3(p, d, snapshot, a, v, values[i]);
        snapshot := storeAfter;
      } else {
        result, a, storeAfter := TryValueAC3(p, d, entry, a, v, values[i]);
        entry := storeAfter;
      }
      if result.Some? {
        return result, a, entry;
      }
      onSnapshot := true;
      i := i + 1;
    }
    return None, a, entry;
  }
}
