/** The barriers of a round and the pairs its regions assert form one order-preserving injection. */
module NonCrossing {
  import opened Wrappers
  import opened Chains
  import opened Syntax
  import opened Buckets
  import opened Mappings
  import opened Regions
  import opened StableCore
  import opened Components
  import opened RegionCore
  import opened Visits
  import opened ExactChildrenPass
  import opened Worklist

  /** Filtering keeps the order of a list. */
  lemma {:induction false} UnmappedKeepsOrder(m: Mapping, ids: seq<nat>, i: nat, j: nat, x: nat, y: nat)
    requires Distinct(ids) && i < j < |UnmappedBefore(m, ids)| && x < |ids| && y < |ids|
    requires ids[x] == UnmappedBefore(m, ids)[i] && ids[y] == UnmappedBefore(m, ids)[j]
    ensures x < y
    decreases |ids|
  {
    var n := |ids| - 1;
    var rest := UnmappedBefore(m, ids[..n]);
    assert ids[x] in rest && ids[x] in ids[..n];
    if j < |rest| {
      assert ids[y] in rest && ids[y] in ids[..n];
      UnmappedKeepsOrder(m, ids[..n], i, j, x, y);
    }
  }

  lemma {:induction false} UnmappedAfterKeepsOrder(m: Mapping, ids: seq<nat>, i: nat, j: nat, x: nat, y: nat)
    requires Distinct(ids) && i < j < |UnmappedAfter(m, ids)| && x < |ids| && y < |ids|
    requires ids[x] == UnmappedAfter(m, ids)[i] && ids[y] == UnmappedAfter(m, ids)[j]
    ensures x < y
    decreases |ids|
  {
    var n := |ids| - 1;
    var rest := UnmappedAfter(m, ids[..n]);
    assert ids[x] in rest && ids[x] in ids[..n];
    if j < |rest| {
      assert ids[y] in rest && ids[y] in ids[..n];
      UnmappedAfterKeepsOrder(m, ids[..n], i, j, x, y);
    }
  }

  /** The cell of the child matrix holds a pair that the k-th region asserts. */
  ghost predicate AssertedIn(bc: seq<nat>, ac: seq<nat>, v: Visit, k: nat, x: Cell) {
    && k < |v.solved| && x.0 < |bc| && x.1 < |ac| && (bc[x.0], ac[x.1]) in v.solved[k].outcome.forced
  }

  ghost predicate Placed(bc: seq<nat>, ac: seq<nat>, v: Visit, x: Cell) {
    x in v.barriers || exists k :: AssertedIn(bc, ac, v, k, x)
  }

  ghost predicate Ordered(x: Cell, y: Cell) {
    x == y || Before(x, y) || Before(y, x)
  }

  ghost predicate SolvedVisit(l: Tree, r: Tree, bc: seq<nat>, ac: seq<nat>, v: Visit) {
    && WellFormed(l) && WellFormed(r) && ValidIds(l, bc) && ValidIds(r, ac)
    && SplitAt(v.split, bc, ac, v.barriers, v.regions) && |v.solved| <= |v.regions|
    && forall k :: 0 <= k < |v.solved| ==> RegionReports(l, r, v.solved[k].now, v.regions[k].before, v.regions[k].after,
                                                         v.solved[k].outcome)
  }

  /** A pair asserted by a region lies between the two barriers of the region. */
  lemma AssertedBetween(l: Tree, r: Tree, bc: seq<nat>, ac: seq<nat>, v: Visit, k: nat, x: Cell)
    requires SolvedVisit(l, r, bc, ac, v) && AssertedIn(bc, ac, v, k, x)
    ensures k <= |v.barriers|
    ensures Lo(v.barriers, k).0 <= x.0 < Hi(v.barriers, bc, ac, k).0
    ensures Lo(v.barriers, k).1 <= x.1 < Hi(v.barriers, bc, ac, k).1
    ensures bc[x.0] in v.regions[k].before && ac[x.1] in v.regions[k].after
  {
    hide WellFormed, Fences, RegionAt, PairInEvery, PairInSome, GoodAmbiguity, Explains, AmbiguitiesApart;
    assert IsRegion(v.split, bc, ac, v.barriers, k, v.regions[k]);
    RegionMembers(l, r, v.split, bc, ac, v.barriers, k, v.regions[k]);
    assert bc[x.0] in v.regions[k].before && ac[x.1] in v.regions[k].after;
  }

  lemma AssertedForced(l: Tree, r: Tree, bc: seq<nat>, ac: seq<nat>, v: Visit, k: nat, x: Cell)
    requires SolvedVisit(l, r, bc, ac, v) && AssertedIn(bc, ac, v, k, x)
    ensures x.0 < |bc| && x.1 < |ac| && k < |v.solved| && k < |v.regions|
    ensures PairInEvery(l, r, v.solved[k].now, v.regions[k].before, v.regions[k].after, bc[x.0], ac[x.1])
  {
    hide WellFormed, PairInEvery, PairInSome, GoodAmbiguity, Explains, AmbiguitiesApart, SplitAt;
  }

  lemma DifferentPairs(bc: seq<nat>, ac: seq<nat>, x: Cell, y: Cell)
    requires Distinct(bc) && Distinct(ac) && x != y
    requires x.0 < |bc| && x.1 < |ac| && y.0 < |bc| && y.1 < |ac|
    ensures (bc[x.0], ac[x.1]) != (bc[y.0], ac[y.1])
  {
  }

  /** Two pairs asserted by one region are ordered in the child lists as they are in the region. */
  lemma SameRegionOrdered(l: Tree, r: Tree, bc: seq<nat>, ac: seq<nat>, v: Visit, k: nat, x: Cell, y: Cell)
    requires SolvedVisit(l, r, bc, ac, v) && AssertedIn(bc, ac, v, k, x) && AssertedIn(bc, ac, v, k, y)
    ensures Ordered(x, y)
  {
    hide WellFormed, Fences, PairInEvery, RegionReports, RegionAt, UnmappedBefore, UnmappedAfter, AssertedIn;
    if x != y {
      AssertedForced(l, r, bc, ac, v, k, x);
      AssertedForced(l, r, bc, ac, v, k, y);
      var region := v.regions[k];
      var p, q := (bc[x.0], ac[x.1]), (bc[y.0], ac[y.1]);
      assert IsRegion(v.split, bc, ac, v.barriers, k, region);
      RegionMembers(l, r, v.split, bc, ac, v.barriers, k, region);
      DifferentPairs(bc, ac, x, y);
      ForcedOrdered(l, r, v.solved[k].now, region.before, region.after, p, q);
      var u, w :| At(region.before, region.after, p.0, p.1, u) && At(region.before, region.after, q.0, q.1, w) &&
                  (Before(u, w) || Before(w, u));
      AssertedBetween(l, r, bc, ac, v, k, x);
      AssertedBetween(l, r, bc, ac, v, k, y);
      var lo, hi := Lo(v.barriers, k), Hi(v.barriers, bc, ac, k);
      if Before(u, w) {
        RegionKeepsOrder(v.split, bc, ac, lo, hi, u, w, x, y);
      } else {
        RegionKeepsOrder(v.split, bc, ac, lo, hi, w, u, y, x);
      }
    }
  }

  lemma RegionKeepsOrder(m: Mapping, bc: seq<nat>, ac: seq<nat>, lo: Cell, hi: Cell, u: Cell, w: Cell, x: Cell, y: Cell)
    requires Distinct(bc) && Distinct(ac) && lo.0 <= hi.0 <= |bc| && lo.1 <= hi.1 <= |ac|
    requires lo.0 <= x.0 < hi.0 && lo.1 <= x.1 < hi.1 && lo.0 <= y.0 < hi.0 && lo.1 <= y.1 < hi.1
    requires Before(u, w)
    requires var region := RegionAt(m, bc, ac, lo, hi);
             At(region.before, region.after, bc[x.0], ac[x.1], u) &&
             At(region.before, region.after, bc[y.0], ac[y.1], w)
    ensures Before(x, y)
  {
    SliceDistinct(bc, lo.0, hi.0);
    SliceDistinct(ac, lo.1, hi.1);
    UnmappedKeepsOrder(m, bc[lo.0..hi.0], u.0, w.0, x.0 - lo.0, y.0 - lo.0);
    UnmappedAfterKeepsOrder(m, ac[lo.1..hi.1], u.1, w.1, x.1 - lo.1, y.1 - lo.1);
  }

  lemma BarrierOrdered(l: Tree, r: Tree, bc: seq<nat>, ac: seq<nat>, v: Visit, j: nat, k: nat, y: Cell)
    requires SolvedVisit(l, r, bc, ac, v) && j < |v.barriers| && AssertedIn(bc, ac, v, k, y)
    ensures Ordered(v.barriers[j], y)
  {
    hide WellFormed, RegionReports, ValidIds, IsRegion;
    AssertedBetween(l, r, bc, ac, v, k, y);
    if j < k {
      LadderStep(bc, ac, v.barriers, j, k);
    } else if k < j {
      assert Before(v.barriers[k], v.barriers[j]);
    }
  }

  lemma AssertedOrdered(l: Tree, r: Tree, bc: seq<nat>, ac: seq<nat>, v: Visit, j: nat, k: nat, x: Cell, y: Cell)
    requires SolvedVisit(l, r, bc, ac, v) && AssertedIn(bc, ac, v, j, x) && AssertedIn(bc, ac, v, k, y)
    ensures Ordered(x, y)
  {
    hide WellFormed, RegionReports, ValidIds, IsRegion, Fences;
    AssertedBetween(l, r, bc, ac, v, j, x);
    AssertedBetween(l, r, bc, ac, v, k, y);
    if j < k {
      LadderStep(bc, ac, v.barriers, j, k);
    } else if k < j {
      LadderStep(bc, ac, v.barriers, k, j);
    } else {
      SameRegionOrdered(l, r, bc, ac, v, k, x, y);
    }
  }

  lemma PlacedOrdered(l: Tree, r: Tree, bc: seq<nat>, ac: seq<nat>, v: Visit, x: Cell, y: Cell)
    requires SolvedVisit(l, r, bc, ac, v) && Placed(bc, ac, v, x) && Placed(bc, ac, v, y)
    ensures Ordered(x, y)
  {
    hide WellFormed, RegionReports, ValidIds, IsRegion, AssertedIn;
    if x in v.barriers {
      var j :| 0 <= j < |v.barriers| && v.barriers[j] == x;
      if y in v.barriers {
        var k :| 0 <= k < |v.barriers| && v.barriers[k] == y;
        assert j < k ==> Before(v.barriers[j], v.barriers[k]);
        assert k < j ==> Before(v.barriers[k], v.barriers[j]);
      } else {
        var k :| AssertedIn(bc, ac, v, k, y);
        BarrierOrdered(l, r, bc, ac, v, j, k, y);
      }
    } else {
      var k :| AssertedIn(bc, ac, v, k, x);
      if y in v.barriers {
        var j :| 0 <= j < |v.barriers| && v.barriers[j] == y;
        BarrierOrdered(l, r, bc, ac, v, j, k, x);
      } else {
        var j :| AssertedIn(bc, ac, v, j, y);
        AssertedOrdered(l, r, bc, ac, v, k, j, x, y);
      }
    }
  }

  /** Whatever a round of the run anchors or asserts under one mapped pair, no two of those pairs cross or share a
      child. */
  lemma RoundOrdered(l: Tree, r: Tree, m: Mapping, trace: seq<Visit>, i: nat, x: Cell, y: Cell)
    requires Completed(l, r, m, trace) && i < |trace|
    requires m.relations[i].before < |l.nodes| && m.relations[i].after < |r.nodes|
    requires Placed(Children(l, m.relations[i].before), Children(r, m.relations[i].after), trace[i], x)
    requires Placed(Children(l, m.relations[i].before), Children(r, m.relations[i].after), trace[i], y)
    ensures Ordered(x, y)
  {
    hide Invariant, WellFormed, RegionReports, ValidIds, SplitAt, Placed, Ordered, ExactChildrenDone, AreBarriers;
    InvariantParts(l, r, m);
    assert Finished(l, r, m, m.relations[i], trace[i]);
    ChildrenValid(l, r, m.relations[i].before, m.relations[i].after);
    forall k | 0 <= k < |trace[i].solved|
      ensures RegionReports(l, r, trace[i].solved[k].now, trace[i].regions[k].before, trace[i].regions[k].after,
                            trace[i].solved[k].outcome)
    {
      assert SolvedHolds(l, r, m, trace[i].regions[k], trace[i].solved[k]);
    }
    PlacedOrdered(l, r, Children(l, m.relations[i].before), Children(r, m.relations[i].after), trace[i], x, y);
  }
}
