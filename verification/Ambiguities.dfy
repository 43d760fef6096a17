/** What a finished worklist guarantees about its ambiguity groups and its asserted pairs. */
module Ambiguities {
  import opened Wrappers
  import opened Chains
  import opened Syntax
  import opened Buckets
  import opened Mappings
  import opened Regions
  import opened ShapePairs
  import opened StableCore
  import opened Components
  import opened RegionCore
  import opened Visits
  import opened ExactChildrenPass
  import opened Worklist

  // ----- where a group comes from

  /** The group is one ambiguity of one solved region of the pair. */
  ghost predicate FromRegion(l: Tree, r: Tree, m: Mapping, p: nat, q: nat, region: Region, solved: Solved,
                             g: AmbiguityGroup) {
    && SolvedHolds(l, r, m, region, solved) && g.parentBefore == p && g.parentAfter == q
    && Ambiguity(g.before, g.after, g.constraint) in solved.outcome.ambiguities
  }

  ghost predicate FromVisit(l: Tree, r: Tree, m: Mapping, p: nat, q: nat, v: Visit, g: AmbiguityGroup) {
    exists k :: 0 <= k < |v.solved| && k < |v.regions| && FromRegion(l, r, m, p, q, v.regions[k], v.solved[k], g)
  }

  ghost predicate GroupApart(g: AmbiguityGroup, h: AmbiguityGroup) {
    (forall id :: id in g.before ==> id !in h.before) && (forall id :: id in g.after ==> id !in h.after)
  }

  ghost predicate GroupsApart(groups: seq<AmbiguityGroup>) {
    forall j, k :: 0 <= j < k < |groups| ==> GroupApart(groups[j], groups[k])
  }

  /** The group is an ambiguity of a region of this round, with the pair the round visited. */
  ghost predicate OfRound(relation: Relation, v: Visit, g: AmbiguityGroup) {
    && g.parentBefore == relation.before && g.parentAfter == relation.after
    && exists n :: 0 <= n < |v.solved| && Ambiguity(g.before, g.after, g.constraint) in v.solved[n].outcome.ambiguities
  }

  lemma OutcomeGroups(p: nat, q: nat, ambiguities: seq<Ambiguity>, g: AmbiguityGroup)
    ensures g in GroupsOfOutcome(p, q, ambiguities) <==>
            g.parentBefore == p && g.parentAfter == q && Ambiguity(g.before, g.after, g.constraint) in ambiguities
  {
    var groups := GroupsOfOutcome(p, q, ambiguities);
    if k :| 0 <= k < |ambiguities| && ambiguities[k] == Ambiguity(g.before, g.after, g.constraint) {
      assert g.parentBefore == p && g.parentAfter == q ==> groups[k] == g;
    }
  }

  lemma {:induction false} RoundGroups(p: nat, q: nat, solved: seq<Solved>, g: AmbiguityGroup)
    ensures g in GroupsOfVisit(p, q, solved) <==>
            && g.parentBefore == p && g.parentAfter == q
            && exists n :: 0 <= n < |solved| &&
                           Ambiguity(g.before, g.after, g.constraint) in solved[n].outcome.ambiguities
    decreases |solved|
  {
    hide GroupsOfOutcome;
    if solved != [] {
      var n := |solved| - 1;
      RoundGroups(p, q, solved[..n], g);
      OutcomeGroups(p, q, solved[n].outcome.ambiguities, g);
      assert forall j :: 0 <= j < n ==> solved[..n][j] == solved[j];
    }
  }

  /** The groups are exactly the ambiguities of the solved regions, under the pairs whose rounds solved them. */
  lemma {:induction false} GroupsExactly(relations: seq<Relation>, trace: seq<Visit>, g: AmbiguityGroup)
    requires |trace| <= |relations|
    ensures g in GroupsOf(relations, trace) <==>
            exists i :: 0 <= i < |trace| && i < |relations| && OfRound(relations[i], trace[i], g)
    decreases |trace|
  {
    hide GroupsOfVisit;
    if trace != [] {
      var i := |trace| - 1;
      GroupsExactly(relations, trace[..i], g);
      RoundGroups(relations[i].before, relations[i].after, trace[i].solved, g);
      assert forall j :: 0 <= j < i ==> trace[..i][j] == trace[j];
    }
  }

  lemma RegionGroup(l: Tree, r: Tree, m: Mapping, p: nat, q: nat, region: Region, solved: Solved, g: AmbiguityGroup)
    requires FromRegion(l, r, m, p, q, region, solved, g)
    ensures g.before != [] && g.after != []
    ensures forall id :: id in g.before ==> id in region.before && !Mapped(m, id)
    ensures forall id :: id in g.after ==> id in region.after && !AfterMapped(m, id)
  {
    hide PairInEvery, PairInSome, Explains, Snapshot;
    var o := solved.outcome;
    var n :| 0 <= n < |o.ambiguities| && o.ambiguities[n] == Ambiguity(g.before, g.after, g.constraint);
    assert GoodAmbiguity(region.before, region.after, o.forced, o.ambiguities[n]);
  }

  /** The ids of a group of a round are free children of the pair the round visits. */
  lemma VisitGroup(l: Tree, r: Tree, m: Mapping, relation: Relation, v: Visit, g: AmbiguityGroup)
    requires VisitHolds(l, r, m, relation, v) && FromVisit(l, r, m, relation.before, relation.after, v, g)
    ensures g.before != [] && g.after != [] && relation.before < |l.nodes| && relation.after < |r.nodes|
    ensures WellFormed(l) && WellFormed(r) && g.parentBefore == relation.before && g.parentAfter == relation.after
    ensures forall id :: id in g.before ==> id in Children(l, relation.before) && !Mapped(m, id)
    ensures forall id :: id in g.after ==> id in Children(r, relation.after) && !AfterMapped(m, id)
  {
    hide WellFormed, SolvedHolds, Snapshot, ExactChildrenDone, AreBarriers, Fences, RegionAt;
    var k :| 0 <= k < |v.solved| && k < |v.regions| &&
             FromRegion(l, r, m, relation.before, relation.after, v.regions[k], v.solved[k], g);
    RegionGroup(l, r, m, relation.before, relation.after, v.regions[k], v.solved[k], g);
    var bc, ac := Children(l, relation.before), Children(r, relation.after);
    assert IsRegion(v.split, bc, ac, v.barriers, k, v.regions[k]);
    RegionOfChildren(v.split, bc, ac, v.barriers, k, v.regions[k]);
  }

  lemma {:induction false} VisitGroups(l: Tree, r: Tree, m: Mapping, relation: Relation, v: Visit)
    requires VisitHolds(l, r, m, relation, v)
    ensures var groups := GroupsOfVisit(relation.before, relation.after, v.solved);
            GroupsApart(groups) && forall g :: g in groups ==> FromVisit(l, r, m, relation.before, relation.after, v, g)
    decreases |v.solved|
  {
    hide WellFormed, SolvedHolds, Snapshot, ExactChildrenDone, AreBarriers, Fences, RegionAt, SplitAt;
    if v.solved != [] {
      var k := |v.solved| - 1;
      var w := v.(solved := v.solved[..k]);
      VisitGroups(l, r, m, relation, w);
      LastRegionGroups(l, r, m, relation, v);
      var before := GroupsOfVisit(relation.before, relation.after, w.solved);
      var last := GroupsOfOutcome(relation.before, relation.after, v.solved[k].outcome.ambiguities);
      forall g | g in before ensures FromVisit(l, r, m, relation.before, relation.after, v, g) {
        assert FromVisit(l, r, m, relation.before, relation.after, w, g);
        var j :| 0 <= j < |w.solved| && j < |w.regions| &&
                 FromRegion(l, r, m, relation.before, relation.after, w.regions[j], w.solved[j], g);
        assert w.solved[j] == v.solved[j] && w.regions[j] == v.regions[j];
      }
      forall g, h | g in before && h in last ensures GroupApart(g, h) {
        EarlierRegionApart(l, r, m, relation, v, g, h);
      }
      AppendApart(before, last);
    }
  }

  lemma AppendApart(groups: seq<AmbiguityGroup>, more: seq<AmbiguityGroup>)
    requires GroupsApart(groups) && GroupsApart(more)
    requires forall g, h :: g in groups && h in more ==> GroupApart(g, h)
    ensures GroupsApart(groups + more)
  {
    hide GroupApart;
    var all := groups + more;
    forall j, k | 0 <= j < k < |all| ensures GroupApart(all[j], all[k]) {
      if j < |groups| <= k {
        assert all[j] in groups && all[k] in more;
      } else if k < |groups| {
        assert all[j] == groups[j] && all[k] == groups[k];
      } else {
        assert all[j] == more[j - |groups|] && all[k] == more[k - |groups|];
      }
    }
  }

  lemma LastRegionGroups(l: Tree, r: Tree, m: Mapping, relation: Relation, v: Visit)
    requires VisitHolds(l, r, m, relation, v) && v.solved != []
    ensures var k := |v.solved| - 1;
            var last := GroupsOfOutcome(relation.before, relation.after, v.solved[k].outcome.ambiguities);
            GroupsApart(last) &&
            forall g :: g in last ==> FromRegion(l, r, m, relation.before, relation.after, v.regions[k], v.solved[k], g)
  {
    hide WellFormed, Snapshot, ExactChildrenDone, AreBarriers, SplitAt;
    hide PairInEvery, PairInSome, Explains, GoodAmbiguity;
    var k := |v.solved| - 1;
    assert SolvedHolds(l, r, m, v.regions[k], v.solved[k]);
    var o := v.solved[k].outcome;
    var last := GroupsOfOutcome(relation.before, relation.after, o.ambiguities);
    forall i, j | 0 <= i < j < |last| ensures GroupApart(last[i], last[j]) {
      assert AmbiguitiesApart(o.ambiguities[i], o.ambiguities[j]);
    }
  }

  lemma EarlierRegionApart(l: Tree, r: Tree, m: Mapping, relation: Relation, v: Visit, g: AmbiguityGroup,
                           h: AmbiguityGroup)
    requires VisitHolds(l, r, m, relation, v) && v.solved != []
    requires FromVisit(l, r, m, relation.before, relation.after, v.(solved := v.solved[..|v.solved| - 1]), g)
    requires FromRegion(l, r, m, relation.before, relation.after, v.regions[|v.solved| - 1], v.solved[|v.solved| - 1],
                        h)
    ensures GroupApart(g, h)
  {
    hide WellFormed, SolvedHolds, Snapshot, ExactChildrenDone, AreBarriers, SplitAt;
    var k := |v.solved| - 1;
    var w := v.(solved := v.solved[..k]);
    var j :| 0 <= j < |w.solved| && j < |w.regions| &&
             FromRegion(l, r, m, relation.before, relation.after, w.regions[j], w.solved[j], g);
    RegionGroup(l, r, m, relation.before, relation.after, w.regions[j], w.solved[j], g);
    RegionGroup(l, r, m, relation.before, relation.after, v.regions[k], v.solved[k], h);
    ChildrenValid(l, r, relation.before, relation.after);
    RegionsApart(l, r, v.split, Children(l, relation.before), Children(r, relation.after), v.barriers, v.regions, j, k);
  }

  // ----- the two guarantees

  ghost predicate FromSomeVisit(l: Tree, r: Tree, m: Mapping, trace: seq<Visit>, g: AmbiguityGroup) {
    exists i :: 0 <= i < |trace| && i < |m.relations| && Finished(l, r, m, m.relations[i], trace[i]) &&
                FromVisit(l, r, m, m.relations[i].before, m.relations[i].after, trace[i], g)
  }

  lemma {:induction false} AllGroups(l: Tree, r: Tree, m: Mapping, trace: seq<Visit>)
    requires Consistent(l, r, m) && TraceHolds(l, r, m, trace)
    ensures GroupsApart(GroupsOf(m.relations, trace))
    ensures forall g :: g in GroupsOf(m.relations, trace) ==> FromSomeVisit(l, r, m, trace, g)
    decreases |trace|
  {
    hide VisitHolds, Consistent, FromVisit;
    if trace != [] {
      var i := |trace| - 1;
      var init := trace[..i];
      assert TraceHolds(l, r, m, init) by {
        assert forall j :: 0 <= j < i ==> init[j] == trace[j];
      }
      AllGroups(l, r, m, init);
      assert Finished(l, r, m, m.relations[i], trace[i]);
      VisitGroups(l, r, m, m.relations[i], trace[i]);
      var last := GroupsOfVisit(m.relations[i].before, m.relations[i].after, trace[i].solved);
      forall g | g in GroupsOf(m.relations, init) ensures FromSomeVisit(l, r, m, trace, g) {
        var j :| 0 <= j < |init| && j < |m.relations| && Finished(l, r, m, m.relations[j], init[j]) &&
                 FromVisit(l, r, m, m.relations[j].before, m.relations[j].after, init[j], g);
        assert init[j] == trace[j];
      }
      forall g, h | g in GroupsOf(m.relations, init) && h in last ensures GroupApart(g, h) {
        EarlierVisitApart(l, r, m, trace, g, h);
      }
      AppendApart(GroupsOf(m.relations, init), last);
    }
  }

  lemma EarlierVisitApart(l: Tree, r: Tree, m: Mapping, trace: seq<Visit>, g: AmbiguityGroup, h: AmbiguityGroup)
    requires Consistent(l, r, m) && TraceHolds(l, r, m, trace) && trace != []
    requires FromSomeVisit(l, r, m, trace[..|trace| - 1], g)
    requires FromVisit(l, r, m, m.relations[|trace| - 1].before, m.relations[|trace| - 1].after, trace[|trace| - 1], h)
    ensures GroupApart(g, h)
  {
    hide VisitHolds, Consistent, FromVisit, WellFormed;
    var i := |trace| - 1;
    var j :| 0 <= j < i && Finished(l, r, m, m.relations[j], trace[..i][j]) &&
             FromVisit(l, r, m, m.relations[j].before, m.relations[j].after, trace[..i][j], g);
    assert Finished(l, r, m, m.relations[i], trace[i]);
    RelationsDiffer(l, r, m, j, i);
    VisitGroup(l, r, m, m.relations[j], trace[j], g);
    VisitGroup(l, r, m, m.relations[i], trace[i], h);
    forall id | id in g.before ensures id !in h.before {
      ParentOfChild(l, m.relations[j].before, id);
      if id in h.before {
        ParentOfChild(l, m.relations[i].before, id);
      }
    }
    forall id | id in g.after ensures id !in h.after {
      ParentOfChild(r, m.relations[j].after, id);
      if id in h.after {
        ParentOfChild(r, m.relations[i].after, id);
      }
    }
  }

  /** At the end of the run every ambiguous endpoint is an unmapped child of a mapped pair, so nothing placed in a group
      was mapped afterwards. */
  lemma AmbiguousStayFree(l: Tree, r: Tree, m: Mapping, trace: seq<Visit>, g: AmbiguityGroup)
    requires Completed(l, r, m, trace) && g in GroupsOf(m.relations, trace)
    ensures FreeChildren(l, r, m, g.parentBefore, g.parentAfter, g.before, g.after) && g.before != [] && g.after != []
  {
    hide Invariant, Consistent, VisitHolds, TraceHolds, FromVisit, WellFormed;
    InvariantParts(l, r, m);
    AllGroups(l, r, m, trace);
    assert FromSomeVisit(l, r, m, trace, g);
    var i :| 0 <= i < |trace| && i < |m.relations| && Finished(l, r, m, m.relations[i], trace[i]) &&
             FromVisit(l, r, m, m.relations[i].before, m.relations[i].after, trace[i], g);
    VisitGroup(l, r, m, m.relations[i], trace[i], g);
    RelationEnds(l, r, m, i);
  }

  /** No node belongs to two groups. */
  lemma NoNodeInTwoGroups(l: Tree, r: Tree, m: Mapping, trace: seq<Visit>, j: nat, k: nat)
    requires Completed(l, r, m, trace) && j < k < |GroupsOf(m.relations, trace)|
    ensures GroupApart(GroupsOf(m.relations, trace)[j], GroupsOf(m.relations, trace)[k])
  {
    hide Invariant, Consistent, TraceHolds, GroupApart;
    InvariantParts(l, r, m);
    AllGroups(l, r, m, trace);
  }

  /** Where the group of a region was found, and the component it speaks of. */
  ghost predicate EncodedIn(l: Tree, r: Tree, relation: Relation, v: Visit, n: nat, d: Division, c: Component,
                            g: AmbiguityGroup)
  {
    && g.parentBefore == relation.before && g.parentAfter == relation.after
    && n < |v.solved| && n < |v.regions| && g.constraint.ExactOrderedAlignment?
    && var (now, region, forced) := (v.solved[n].now, v.regions[n], v.solved[n].outcome.forced);
       && Explains(l, r, now, region.before, region.after, v.solved[n].outcome, d) && c in d.components
       && SubList(g.before, c.before) && SubList(g.after, c.after)
       && EncodesOptima(RegionCells(l, r, now, c.before, c.after), c, forced, g.constraint.requiredMatches,
                        g.constraint.possiblePairs)
  }

  /** A group with an exact constraint encodes precisely the maximum ordered alignments of its component, in the mapping
      its region was solved against, given the pairs that region asserted. */
  lemma ExactGroupEncodes(l: Tree, r: Tree, m: Mapping, trace: seq<Visit>, g: AmbiguityGroup)
    returns (i: nat, n: nat, d: Division, c: Component)
    requires Completed(l, r, m, trace) && g in GroupsOf(m.relations, trace)
    requires g.constraint.ExactOrderedAlignment?
    ensures i < |trace| && i < |m.relations| && EncodedIn(l, r, m.relations[i], trace[i], n, d, c, g)
  {
    hide Invariant, Consistent, VisitHolds, TraceHolds, FromRegion, WellFormed, Successive, Explains, EncodesOptima;
    InvariantParts(l, r, m);
    AllGroups(l, r, m, trace);
    assert FromSomeVisit(l, r, m, trace, g);
    i :| 0 <= i < |trace| && i < |m.relations| && Finished(l, r, m, m.relations[i], trace[i]) &&
         FromVisit(l, r, m, m.relations[i].before, m.relations[i].after, trace[i], g);
    var p, q := m.relations[i].before, m.relations[i].after;
    n :| 0 <= n < |trace[i].solved| && n < |trace[i].regions| &&
         FromRegion(l, r, m, p, q, trace[i].regions[n], trace[i].solved[n], g);
    d, c := RegionEncodes(l, r, m, p, q, trace[i].regions[n], trace[i].solved[n], g);
  }

  lemma RegionEncodes(l: Tree, r: Tree, m: Mapping, p: nat, q: nat, region: Region, solved: Solved, g: AmbiguityGroup)
    returns (d: Division, c: Component)
    requires FromRegion(l, r, m, p, q, region, solved, g) && g.constraint.ExactOrderedAlignment?
    ensures g.parentBefore == p && g.parentAfter == q && c in d.components
    ensures Explains(l, r, solved.now, region.before, region.after, solved.outcome, d)
    ensures SubList(g.before, c.before) && SubList(g.after, c.after)
    ensures EncodesOptima(RegionCells(l, r, solved.now, c.before, c.after), c, solved.outcome.forced,
                          g.constraint.requiredMatches, g.constraint.possiblePairs)
  {
    hide PairInEvery, PairInSome, Explains, Snapshot, EncodesOptima, GoodAmbiguity, AmbiguitiesApart, SubList;
    var o := solved.outcome;
    d :| Explains(l, r, solved.now, region.before, region.after, o, d);
    var k: nat :| k < |o.ambiguities| && o.ambiguities[k] == Ambiguity(g.before, g.after, g.constraint);
    var j := ExactAmbiguityEncodes(l, r, solved.now, region.before, region.after, o, d, k);
    c := d.components[j];
  }
}
