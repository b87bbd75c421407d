/**
  The domain store, assignments, and the reference definitions the solver's
  operations are proved against: support of a candidate across an arc, the
  result of revising an arc, arc consistency, and consistency of an assignment.
 */
module Domains {

  import opened Crossword

  /** Candidate words of every slot. */
  type Domains = map<Variable, set<Word>>

  /** A partial fill of the grid. */
  type Assignment = map<Variable, Word>

  /** An ordered pair (x, y): x's candidates are checked against y's. */
  type Arc = (Variable, Variable)

  /** The store the solver starts from: every slot may hold every word. */
  function InitialDomains(p: Puzzle): (d: Domains)
    ensures d.Keys == p.variables
    ensures forall v :: v in d ==> d[v] == p.words
  {
    map v | v in p.variables :: p.words
  }

  /** Every candidate has the length of its slot. */
  ghost predicate NodeConsistent(d: Domains) {
    forall v, w :: v in d && w in d[v] ==> |w| == v.length
  }

  /** The (slot, candidate) pairs of a store: its size is the sum of the
      domain sizes. */
  ghost function Entries(d: Domains): set<(Variable, Word)> {
    set v, w | v in d && w in d[v] :: (v, w)
  }

  /** vy in y's domain can accompany vx in x's: the words differ and agree
      at the crossing. */
  predicate Compatible(p: Puzzle, x: Variable, y: Variable, vx: Word, vy: Word) {
    vx != vy && OverlapSatisfied(p, x, y, vx, vy)
  }

  /** Some candidate of y can accompany vx. */
  predicate Supported(p: Puzzle, d: Domains, x: Variable, y: Variable, vx: Word) {
    y in d && exists vy :: vy in d[y] && Compatible(p, x, y, vx, vy)
  }

  /** The store after x's domain loses every candidate without support in y. */
  function Revised(p: Puzzle, d: Domains, x: Variable, y: Variable): Domains
    requires x in d
  {
    d[x := set vx | vx in d[x] && Supported(p, d, x, y, vx)]
  }

  /** Every candidate of x has support in y. */
  ghost predicate ArcConsistent(p: Puzzle, d: Domains, x: Variable, y: Variable) {
    x in d && forall vx :: vx in d[x] ==> Supported(p, d, x, y, vx)
  }

  /** Every arc between crossing slots is arc consistent. */
  ghost predicate ArcConsistentStore(p: Puzzle, d: Domains) {
    forall x, y :: x in d && y in d && y in Neighbors(p, x) ==> ArcConsistent(p, d, x, y)
  }

  /** Every arc between crossing slots is either still queued or arc consistent. */
  ghost predicate PendingCover(p: Puzzle, d: Domains, q: seq<Arc>) {
    forall x, y :: x in d && y in d && y in Neighbors(p, x) ==> (x, y) in q || ArcConsistent(p, d, x, y)
  }

  /** Every arc of W between crossing slots is either still queued or arc
      consistent. AC-3 watches the arcs that were queued or already arc
      consistent when it started. */
  ghost predicate WatchCover(p: Puzzle, d: Domains, q: seq<Arc>, W: set<Arc>) {
    forall x, y :: (x, y) in W && x in d && y in d && y in Neighbors(p, x) ==> (x, y) in q || ArcConsistent(p, d, x, y)
  }

  /** An arc the source can revise: both slots have a domain and differ. */
  predicate ValidArc(d: Domains, a: Arc) {
    a.0 in d && a.1 in d && a.0 != a.1
  }

  ghost predicate DistinctWords(a: Assignment) {
    forall x, y :: x in a && y in a && x != y ==> a[x] != a[y]
  }

  ghost predicate LengthsMatch(a: Assignment) {
    forall x :: x in a ==> |a[x]| == x.length
  }

  ghost predicate CrossingsAgree(p: Puzzle, a: Assignment) {
    forall x, y :: x in a && y in a && y in Neighbors(p, x) ==> OverlapSatisfied(p, x, y, a[x], a[y])
  }

  /** No word twice, every word of its slot's length, crossing slots agree. */
  ghost predicate ConsistentAssignment(p: Puzzle, a: Assignment) {
    DistinctWords(a) && LengthsMatch(a) && CrossingsAgree(p, a)
  }

  /** Every slot of the store is assigned. */
  predicate AssignmentComplete(d: Domains, a: Assignment) {
    forall v :: v in d ==> v in a
  }

  /** s fills exactly the slots of d, each with one of its candidates. */
  ghost predicate Within(d: Domains, s: Assignment) {
    s.Keys == d.Keys && forall v :: v in s ==> s[v] in d[v]
  }

  /** s keeps every choice of a. */
  ghost predicate Extends(s: Assignment, a: Assignment) {
    forall v :: v in a ==> v in s && s[v] == a[v]
  }

  /** A solution of the store d that keeps the choices of a. */
  ghost predicate SolutionFrom(p: Puzzle, d: Domains, a: Assignment, s: Assignment) {
    Within(d, s) && Extends(s, a) && ConsistentAssignment(p, s)
  }

  /** A filled grid: every slot holds a word of the vocabulary, consistently. */
  ghost predicate IsSolution(p: Puzzle, s: Assignment) {
    s.Keys == p.variables && ConsistentAssignment(p, s) && forall v :: v in s ==> s[v] in p.words
  }

  /** r is d with some candidates removed. */
  ghost predicate Shrunk(d: Domains, r: Domains) {
    r.Keys == d.Keys && forall v :: v in d ==> r[v] <= d[v]
  }

  /** Every solution of the store d is still admitted by r. */
  ghost predicate KeepsSolutions(p: Puzzle, d: Domains, r: Domains) {
    forall s :: Within(d, s) && ConsistentAssignment(p, s) ==> Within(r, s)
  }

  ghost predicate ArcsValid(d: Domains, q: seq<Arc>) {
    forall a :: a in q ==> ValidArc(d, a)
  }

  /** s is what a successful search from asg over d may return: it fills
      every slot of d, keeps the choices of asg, takes every new word from
      its slot's domain, and is consistent whenever asg is. */
  ghost predicate Found(p: Puzzle, d: Domains, asg: Assignment, s: Assignment) {
    && AssignmentComplete(d, s)
    && Extends(s, asg)
    && (forall v :: v in s && v !in asg ==> v in d && s[v] in d[v])
    && (ConsistentAssignment(p, asg) ==> ConsistentAssignment(p, s))
  }

  /** Compatibility of two words does not depend on which slot is asked first. */
  lemma CompatibleSymmetric(p: Puzzle, x: Variable, y: Variable, vx: Word, vy: Word)
    requires WellFormed(p)
    ensures Compatible(p, x, y, vx, vy) == Compatible(p, y, x, vy, vx)
  {
    OverlapSatisfiedSymmetric(p, x, y, vx, vy);
  }

  /** Revising (x, y) leaves (x, y) arc consistent. */
  lemma RevisedIsArcConsistent(p: Puzzle, d: Domains, x: Variable, y: Variable)
    requires x in d && x != y
    ensures ArcConsistent(p, Revised(p, d, x, y), x, y)
  {
    var d' := Revised(p, d, x, y);
    forall vx | vx in d'[x] ensures Supported(p, d', x, y, vx) {
      var vy :| vy in d[y] && Compatible(p, x, y, vx, vy);
      assert vy in d'[y];
    }
  }

  /** A value removed from x had no compatible partner in y, so it supported
      nothing in y: revising (x, y) keeps (y, x) arc consistent. This is why
      the arc (y, x) need not be queued again. */
  lemma RevisedKeepsReverseArc(p: Puzzle, d: Domains, x: Variable, y: Variable)
    requires WellFormed(p)
    requires x in d && y in d && x != y
    requires ArcConsistent(p, d, y, x)
    ensures ArcConsistent(p, Revised(p, d, x, y), y, x)
  {
    var d' := Revised(p, d, x, y);
    forall vy | vy in d'[y] ensures Supported(p, d', y, x, vy) {
      var vx :| vx in d[x] && Compatible(p, y, x, vy, vx);
      CompatibleSymmetric(p, y, x, vy, vx);
      assert Supported(p, d, x, y, vx);
      assert vx in d'[x];
    }
  }

  /** Shrinking x's domain keeps every arc (a, b) with b != x arc consistent. */
  lemma ShrinkKeepsArc(p: Puzzle, d: Domains, d': Domains, a: Variable, b: Variable)
    requires a in d && a in d' && b in d && b in d'
    requires d'[a] <= d[a] && d'[b] == d[b]
    requires ArcConsistent(p, d, a, b)
    ensures ArcConsistent(p, d', a, b)
  {
    forall vx | vx in d'[a] ensures Supported(p, d', a, b, vx) {
      var vy :| vy in d[b] && Compatible(p, a, b, vx, vy);
      assert vy in d'[b];
    }
  }

  /** Revision never removes a value that belongs to a solution of the store. */
  lemma RevisedKeepsSolutions(p: Puzzle, d: Domains, x: Variable, y: Variable, s: Assignment)
    requires WellFormed(p)
    requires x in d && y in d && x != y
    requires Within(d, s) && ConsistentAssignment(p, s)
    ensures Within(Revised(p, d, x, y), s)
  {
    var d' := Revised(p, d, x, y);
    assert s[x] != s[y];
    if (x, y) in p.overlaps {
      assert y in Neighbors(p, x);
    }
    assert Compatible(p, x, y, s[x], s[y]);
    assert Supported(p, d, x, y, s[x]);
  }

  /** A revision that removes some candidate removes an entry of the store. */
  lemma {:induction false} RevisedShrinksEntries(p: Puzzle, d: Domains, x: Variable, y: Variable)
    requires x in d
    ensures Entries(Revised(p, d, x, y)) <= Entries(d)
    ensures Revised(p, d, x, y)[x] != d[x] ==> Entries(Revised(p, d, x, y)) < Entries(d)
  {
    var d' := Revised(p, d, x, y);
    if d'[x] != d[x] {
      var w :| w in d[x] && w !in d'[x];
      assert (x, w) in Entries(d);
      assert (x, w) !in Entries(d');
    }
  }

  /** A sub-assignment of a consistent assignment is consistent. */
  lemma RestrictionConsistent(p: Puzzle, s: Assignment, a: Assignment)
    requires Extends(s, a) && ConsistentAssignment(p, s)
    ensures ConsistentAssignment(p, a)
  {
  }
}
