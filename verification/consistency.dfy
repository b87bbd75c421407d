/**
  Node consistency, arc revision and AC-3 over the domain store.
 */
module Consistency {

  import opened Wrappers
  import opened Crossword
  import opened Domains

  /** r[v] keeps exactly the words of d[v] whose length is v's. */
  ghost predicate LengthFiltered(d: Domains, r: Domains, v: Variable)
    requires v in d && v in r
  {
    forall w :: w in r[v] <==> w in d[v] && |w| == v.length
  }

  /** Drops from every domain the words whose length differs from the slot's. */
  method EnforceNodeConsistency(d: Domains) returns (r: Domains)
    ensures r.Keys == d.Keys
    ensures forall v :: v in d ==> LengthFiltered(d, r, v)
    ensures NodeConsistent(r) && Shrunk(d, r)
  {
    r := d;
    var todo := d.Keys;
    while todo != {}
      invariant todo <= d.Keys
      invariant r.Keys == d.Keys
      invariant forall v :: v in todo ==> r[v] == d[v]
      invariant forall v :: v in d && v !in todo ==> LengthFiltered(d, r, v)
      decreases todo
    {
      var v :| v in todo;
      var toRemove: set<Word> := {};
      var vals := r[v];
      while vals != {}
        invariant vals <= r[v]
        invariant forall w :: w in toRemove <==> w in r[v] && w !in vals && |w| != v.length
        decreases vals
      {
        var w :| w in vals;
        if |w| != v.length {
          toRemove := toRemove + {w};
        }
        vals := vals - {w};
      }
      r := r[v := r[v] - toRemove];
      assert LengthFiltered(d, r, v);
      todo := todo - {v};
    }
  }

  /** Whether some candidate of y can accompany vx (the inner loop of a revision). */
  method HasSupport(p: Puzzle, d: Domains, x: Variable, y: Variable, vx: Word) returns (b: bool)
    requires y in d
    ensures b <==> Supported(p, d, x, y, vx)
  {
    var ys := d[y];
    while ys != {}
      invariant ys <= d[y]
      invariant forall vy :: vy in d[y] && vy !in ys ==> !Compatible(p, x, y, vx, vy)
      decreases ys
    {
      var vy :| vy in ys;
      if vx != vy && OverlapSatisfied(p, x, y, vx, vy) {
        return true;
      }
      ys := ys - {vy};
    }
    return false;
  }

  /** Removes from x's domain every candidate with no compatible candidate in
      y's; reports whether x's domain shrank. */
  method Revise(p: Puzzle, d: Domains, x: Variable, y: Variable) returns (revised: bool, r: Domains)
    requires x in d && y in d && x != y
    ensures r.Keys == d.Keys
    ensures forall v :: v in d && v != x ==> r[v] == d[v]
    ensures revised <==> r[x] < d[x]
    ensures r == Revised(p, d, x, y)
  {
    revised := false;
    var toRemove: set<Word> := {};
    var rest := d[x];
    while rest != {}
      invariant rest <= d[x]
      invariant forall vx :: vx in toRemove <==> vx in d[x] && vx !in rest && !Supported(p, d, x, y, vx)
      invariant revised <==> toRemove != {}
      decreases rest
    {
      var vx :| vx in rest;
      var consistent := HasSupport(p, d, x, y, vx);
      if !consistent {
        toRemove := toRemove + {vx};
        revised := true;
      }
      rest := rest - {vx};
    }
    assert d[x] - toRemove == set vx | vx in d[x] && Supported(p, d, x, y, vx);
    r := d[x := d[x] - toRemove];
  }

  /** Every ordered pair of distinct slots of the store. */
  method AllArcs(d: Domains) returns (q: seq<Arc>)
    ensures forall a :: a in q <==> ValidArc(d, a)
  {
    q := [];
    var outer := d.Keys;
    while outer != {}
      invariant outer <= d.Keys
      invariant forall a :: a in q <==> ValidArc(d, a) && a.0 !in outer
      decreases outer
    {
      var x :| x in outer;
      var inner := d.Keys;
      ghost var q0 := q;
      while inner != {}
        invariant inner <= d.Keys
        invariant forall a :: a in q <==> a in q0 || (a.0 == x && ValidArc(d, a) && a.1 !in inner)
        decreases inner
      {
        var y :| y in inner;
        if x != y {
          q := q + [(x, y)];
        }
        inner := inner - {y};
      }
      outer := outer - {x};
    }
  }

  /** The arcs (z, x) for every slot z crossing x, except those in skip. */
  method ArcsInto(p: Puzzle, x: Variable, skip: set<Variable>) returns (q: seq<Arc>)
    ensures forall a :: a in q <==> a.1 == x && a.0 in Neighbors(p, x) && a.0 !in skip
  {
    q := [];
    var zs := Neighbors(p, x) - skip;
    while zs != {}
      invariant zs <= Neighbors(p, x) - skip
      invariant forall a :: a in q <==> a.1 == x && a.0 in Neighbors(p, x) - skip && a.0 !in zs
      decreases zs
    {
      var z :| z in zs;
      q := q + [(z, x)];
      zs := zs - {z};
    }
  }

  /** A revision that removes nothing keeps every watched crossing arc but
      (x, y) queued or arc consistent, and (x, y) is then arc consistent. */
  lemma UnchangedRevisionKeepsCover(p: Puzzle, d: Domains, q: seq<Arc>, x: Variable, y: Variable, W: set<Arc>)
    requires x in d && y in d && x != y
    requires WatchCover(p, d, q + [(x, y)], W)
    requires Revised(p, d, x, y)[x] == d[x]
    ensures Revised(p, d, x, y) == d
    ensures WatchCover(p, d, q, W)
  {
    RevisedIsArcConsistent(p, d, x, y);
    assert Revised(p, d, x, y) == d;
    forall a, b | (a, b) in W && a in d && b in d && b in Neighbors(p, a)
      ensures (a, b) in q || ArcConsistent(p, d, a, b)
    {
      if (a, b) != (x, y) && (a, b) !in q {
        assert (a, b) !in q + [(x, y)];
      }
    }
  }

  /** A shrinking revision of (x, y) followed by queueing the arcs (z, x),
      z crossing x and z != y, keeps every watched crossing arc queued or
      arc consistent. */
  lemma RevisionKeepsCover(p: Puzzle, d: Domains, q: seq<Arc>, x: Variable, y: Variable, more: seq<Arc>, W: set<Arc>)
    requires WellFormed(p) && d.Keys == p.variables
    requires x in d && y in d && x != y
    requires WatchCover(p, d, q + [(x, y)], W)
    requires forall a :: a in more <==> a.1 == x && a.0 in Neighbors(p, x) && a.0 != y
    ensures WatchCover(p, Revised(p, d, x, y), q + more, W)
  {
    var d' := Revised(p, d, x, y);
    forall a, b | (a, b) in W && a in d' && b in d' && b in Neighbors(p, a)
      ensures (a, b) in q + more || ArcConsistent(p, d', a, b)
    {
      if (a, b) == (x, y) {
        RevisedIsArcConsistent(p, d, x, y);
      } else if (a, b) !in q {
        assert (a, b) !in q + [(x, y)];
        assert ArcConsistent(p, d, a, b);
        if b != x {
          ShrinkKeepsArc(p, d, d', a, b);
        } else if a == y {
          RevisedKeepsReverseArc(p, d, x, y);
        } else {
          NeighborsSymmetric(p, a, b);
          assert (a, b) in more;
        }
      }
    }
  }

  /** Revision keeps every solution that the store still admits. */
  lemma RevisedKeepsAllSolutions(p: Puzzle, d: Domains, r: Domains, x: Variable, y: Variable)
    requires WellFormed(p)
    requires x in r && y in r && x != y
    requires KeepsSolutions(p, d, r)
    ensures KeepsSolutions(p, d, Revised(p, r, x, y))
  {
    forall s | Within(d, s) && ConsistentAssignment(p, s) ensures Within(Revised(p, r, x, y), s) {
      RevisedKeepsSolutions(p, r, x, y, s);
    }
  }

  /** The arcs still queued and the arcs (z, x) queued after a revision of x
      name slots of the store. */
  lemma ArcsStayValid(p: Puzzle, r: Domains, r': Domains, q: seq<Arc>, x: Variable, more: seq<Arc>)
    requires WellFormed(p) && r.Keys == p.variables && r'.Keys == p.variables
    requires ArcsValid(r, q) && x in r
    requires forall a :: a in more ==> a.1 == x && a.0 in Neighbors(p, x)
    ensures ArcsValid(r', q + more)
  {
    forall a | a in q + more ensures ValidArc(r', a) {
      if a !in q {
        assert a in more;
      }
    }
  }

  /** Once the queue is empty, every watched arc between crossing slots is
      arc consistent: those queued at the start, and those that were arc
      consistent at the start. */
  lemma WatchedArcsConsistent(p: Puzzle, d: Domains, r: Domains, q0: seq<Arc>, W: set<Arc>)
    requires W == set x, y | x in d && y in d && ((x, y) in q0 || ArcConsistent(p, d, x, y)) :: (x, y)
    requires r.Keys == d.Keys && WatchCover(p, r, [], W)
    ensures forall x, y :: x in d && y in d && y in Neighbors(p, x) && (x, y) in q0 ==> ArcConsistent(p, r, x, y)
    ensures forall x, y :: x in d && y in d && y in Neighbors(p, x) && ArcConsistent(p, d, x, y) ==> ArcConsistent(p, r, x, y)
  {
    forall x, y | x in d && y in d && y in Neighbors(p, x) && ((x, y) in q0 || ArcConsistent(p, d, x, y))
      ensures ArcConsistent(p, r, x, y)
    {
      assert (x, y) in W;
    }
  }

  /** Every crossing arc is queued when the queue holds every ordered pair. */
  lemma FullQueueCovers(p: Puzzle, d: Domains, q: seq<Arc>)
    requires WellFormed(p)
    requires forall a :: a in q <==> ValidArc(d, a)
    ensures forall x, y :: x in d && y in d && y in Neighbors(p, x) ==> (x, y) in q
  {
  }

  /** Every arc (x, y) of the initial queue q0 that is no longer queued has
      been revised: each candidate left for x has a partner in y's domain as
      it was on entry. This covers slots that do not cross, which the full
      seed queues too. */
  ghost predicate SeedSupport(p: Puzzle, d: Domains, r: Domains, queue: seq<Arc>, q0: seq<Arc>) {
    forall x, y :: (x, y) in q0 && x in d && y in d && x in r ==>
      (x, y) in queue || forall vx :: vx in r[x] ==> Supported(p, d, x, y, vx)
  }

  /** A partner in a smaller store is a partner in the larger one. */
  lemma SupportedGrows(p: Puzzle, d: Domains, r: Domains, x: Variable, y: Variable, vx: Word)
    requires y in d && y in r && r[y] <= d[y]
    requires Supported(p, r, x, y, vx)
    ensures Supported(p, d, x, y, vx)
  {
    var vy :| vy in r[y] && Compatible(p, x, y, vx, vy);
    assert vy in d[y];
  }

  /** Revising the popped arc (x, y) settles it for the seed: every candidate
      it leaves for x has a partner in y's entry domain. Other settled arcs
      stay settled as domains shrink, and queueing more arcs keeps that. */
  lemma RevisionKeepsSeedSupport(p: Puzzle, d: Domains, r: Domains, q: seq<Arc>, q0: seq<Arc>, x: Variable, y: Variable, more: seq<Arc>)
    requires Shrunk(d, r) && x in r && y in r && x != y
    requires SeedSupport(p, d, r, q + [(x, y)], q0)
    ensures SeedSupport(p, d, Revised(p, r, x, y), q + more, q0)
  {
    var r' := Revised(p, r, x, y);
    forall a, b | (a, b) in q0 && a in d && b in d && a in r' && (a, b) !in q + more
      ensures forall va :: va in r'[a] ==> Supported(p, d, a, b, va)
    {
      assert (a, b) !in q;
      forall va | va in r'[a] ensures Supported(p, d, a, b, va) {
        if (a, b) == (x, y) {
          SupportedGrows(p, d, r, x, y, va);
        } else {
          assert (a, b) !in q + [(x, y)];
        }
      }
    }
  }

  /** Once the queue is empty, every arc of the initial queue is settled. */
  lemma SeedArcsSupported(p: Puzzle, d: Domains, r: Domains, q0: seq<Arc>)
    requires r.Keys == d.Keys && SeedSupport(p, d, r, [], q0)
    ensures forall x, y :: (x, y) in q0 && x in d && y in d ==> forall vx :: vx in r[x] ==> Supported(p, d, x, y, vx)
  {
  }

  /** Every domain of r that is empty was already empty in d. */
  ghost predicate NoNewEmpty(d: Domains, r: Domains) {
    forall v :: v in r && v in d && r[v] == {} ==> d[v] == {}
  }

  /** One round of AC-3: take the arc (x, y) at the end of the queue and
      revise x against y. If x's domain shrank to nothing, report it; if it
      shrank, queue (z, x) for every z crossing x other than y. The store
      loses entries, or stays the same while the queue gets shorter. */
  method ProcessArc(p: Puzzle, d: Domains, r: Domains, queue: seq<Arc>, ghost W: set<Arc>, ghost q0: seq<Arc>)
    returns (emptied: bool, r': Domains, queue': seq<Arc>)
    requires WellFormed(p) && d.Keys == p.variables && queue != []
    requires Shrunk(d, r) && ArcsValid(r, queue) && KeepsSolutions(p, d, r)
    requires WatchCover(p, r, queue, W)
    requires NoNewEmpty(d, r)
    requires SeedSupport(p, d, r, queue, q0)
    ensures Shrunk(d, r') && KeepsSolutions(p, d, r')
    ensures emptied ==> exists v :: v in r' && r'[v] == {} && d[v] != {}
    ensures !emptied ==> ArcsValid(r', queue') && WatchCover(p, r', queue', W)
    ensures !emptied ==> NoNewEmpty(d, r')
    ensures !emptied ==> SeedSupport(p, d, r', queue', q0)
    ensures !emptied ==> Entries(r') < Entries(r) || (r' == r && |queue'| < |queue|)
  {
    var x, y := queue[|queue| - 1].0, queue[|queue| - 1].1;
    assert (x, y) in queue;
    queue' := queue[..|queue| - 1];
    assert queue == queue' + [(x, y)];
    RevisedShrinksEntries(p, r, x, y);
    RevisedKeepsAllSolutions(p, d, r, x, y);
    var changed;
    ghost var q' := queue';
    changed, r' := Revise(p, r, x, y);
    if changed {
      if r'[x] == {} {
        return true, r', queue';
      }
      var more := ArcsInto(p, x, {y});
      ArcsStayValid(p, r, r', queue', x, more);
      RevisionKeepsCover(p, r, queue', x, y, more, W);
      RevisionKeepsSeedSupport(p, d, r, q', q0, x, y, more);
      queue' := queue' + more;
    } else {
      ArcsStayValid(p, r, r', queue', x, []);
      UnchangedRevisionKeepsCover(p, r, queue', x, y, W);
      RevisionKeepsSeedSupport(p, d, r, q', q0, x, y, []);
      assert q' + [] == queue';
    }
    emptied := false;
  }

  /** AC-3: revise arcs taken from the end of the queue until it is empty.
      With no queue, or an empty one, every ordered pair of distinct slots is
      queued. A revision that empties a domain stops the procedure with false. */
  method AC3(p: Puzzle, d: Domains, arcs: Option<seq<Arc>>) returns (ok: bool, r: Domains)
    requires WellFormed(p) && d.Keys == p.variables
    requires arcs.Some? ==> forall a :: a in arcs.value ==> ValidArc(d, a)
    ensures r.Keys == d.Keys
    ensures forall v :: v in d ==> r[v] <= d[v]
    ensures !ok ==> exists v :: v in r && r[v] == {} && d[v] != {}
    ensures ok && (arcs.None? || arcs.value == []) ==> ArcConsistentStore(p, r)
    ensures ok && arcs.Some? && PendingCover(p, d, arcs.value) ==> ArcConsistentStore(p, r)
    ensures ok && arcs.Some? ==> forall x, y :: (x, y) in arcs.value && y in Neighbors(p, x) ==> ArcConsistent(p, r, x, y)
    ensures ok ==> forall x, y :: x in d && y in d && y in Neighbors(p, x) && ArcConsistent(p, d, x, y) ==> ArcConsistent(p, r, x, y)
    ensures forall s :: Within(d, s) && ConsistentAssignment(p, s) ==> Within(r, s)
    ensures !ok ==> forall s :: Within(d, s) ==> !ConsistentAssignment(p, s)
    ensures ok ==> forall v :: v in r && r[v] == {} ==> d[v] == {}
    ensures ok && (arcs.None? || arcs.value == []) ==>
      forall x, y :: x in d && y in d && x != y ==> forall vx :: vx in r[x] ==> Supported(p, d, x, y, vx)
    ensures ok && arcs.Some? ==>
      forall x, y :: (x, y) in arcs.value ==> x in r && forall vx :: vx in r[x] ==> Supported(p, d, x, y, vx)
  {
    var queue: seq<Arc>;
    if arcs.None? || arcs.value == [] {
      queue := AllArcs(d);
      FullQueueCovers(p, d, queue);
    } else {
      queue := arcs.value;
    }
    ghost var q0 := queue;
    ghost var W := set x, y | x in d && y in d && ((x, y) in queue || ArcConsistent(p, d, x, y)) :: (x, y);
    r := d;
    while queue != []
      invariant Shrunk(d, r)
      invariant ArcsValid(r, queue)
      invariant WatchCover(p, r, queue, W)
      invariant KeepsSolutions(p, d, r)
      invariant NoNewEmpty(d, r)
      invariant SeedSupport(p, d, r, queue, q0)
      decreases Entries(r), |queue|
    {
      var emptied;
      emptied, r, queue := ProcessArc(p, d, r, queue, W, q0);
      if emptied {
        return false, r;
      }
    }
    WatchedArcsConsistent(p, d, r, q0, W);
    SeedArcsSupported(p, d, r, q0);
    return true, r;
  }
}
