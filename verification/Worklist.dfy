/** The worklist: every mapped pair is visited once, in the order in which the pairs were recorded. */
module Worklist {
  import opened Wrappers
  import opened Chains
  import opened Syntax
  import opened Buckets
  import opened Mappings
  import opened MappingState
  import opened Regions
  import opened ShapePairs
  import opened StableCore
  import opened Components
  import opened RegionCore
  import opened Visits
  import opened ExactChildrenPass
  import opened GlobalAnchors
  import Sorting

  const USIZE_MAX: nat := 0xFFFF_FFFF_FFFF_FFFF

  datatype AmbiguityGroup = AmbiguityGroup(parentBefore: nat, parentAfter: nat, before: seq<nat>, after: seq<nat>,
                                           constraint: Constraint)

  function GroupsOfOutcome(p: nat, q: nat, ambiguities: seq<Ambiguity>): (groups: seq<AmbiguityGroup>)
    ensures |groups| == |ambiguities|
  {
    seq(|ambiguities|, k requires 0 <= k < |ambiguities| =>
      AmbiguityGroup(p, q, ambiguities[k].before, ambiguities[k].after, ambiguities[k].constraint))
  }

  function GroupsOfVisit(p: nat, q: nat, solved: seq<Solved>): seq<AmbiguityGroup> {
    if solved == [] then []
    else GroupsOfVisit(p, q, solved[..|solved| - 1]) +
         GroupsOfOutcome(p, q, solved[|solved| - 1].outcome.ambiguities)
  }

  /** The groups of all rounds, in the order in which they arise. */
  function GroupsOf(relations: seq<Relation>, trace: seq<Visit>): seq<AmbiguityGroup>
    requires |trace| <= |relations|
  {
    if trace == [] then []
    else
      var i := |trace| - 1;
      GroupsOf(relations, trace[..i]) + GroupsOfVisit(relations[i].before, relations[i].after, trace[i].solved)
  }

  lemma {:induction false} GroupsOfPrefix(relations: seq<Relation>, more: seq<Relation>, trace: seq<Visit>)
    requires |trace| <= |relations| && relations <= more
    ensures GroupsOf(relations, trace) == GroupsOf(more, trace)
    decreases |trace|
  {
    if trace != [] {
      GroupsOfPrefix(relations, more, trace[..|trace| - 1]);
      assert relations[|trace| - 1] == more[|trace| - 1];
    }
  }

  // ----- where shape pairs come from

  ghost predicate ForcedIn(v: Visit, b: nat, a: nat) {
    exists k :: 0 <= k < |v.solved| && (b, a) in v.solved[k].outcome.forced
  }

  ghost predicate ForcedSomewhere(trace: seq<Visit>, b: nat, a: nat) {
    exists i :: 0 <= i < |trace| && ForcedIn(trace[i], b, a)
  }

  /** Every pair that is neither the given one nor exact was asserted by a region of some round. */
  ghost predicate ShapesTraced(m: Mapping, trace: seq<Visit>) {
    forall b: nat :: 0 < b && Mapped(m, b) && !Exact(m, b) ==> ForcedSomewhere(trace, b, m.beforeToAfter[b].value)
  }

  lemma ShapesKept(l: Tree, r: Tree, m: Mapping, n: Mapping, trace: seq<Visit>, v: Visit)
    requires GrewExactly(l, r, m, n) && ShapesTraced(m, trace)
    ensures ShapesTraced(n, trace + [v])
  {
    hide ForcedIn;
    forall b: nat | 0 < b && Mapped(n, b) && !Exact(n, b)
      ensures ForcedSomewhere(trace + [v], b, n.beforeToAfter[b].value)
    {
      assert Mapped(m, b);
      var i :| 0 <= i < |trace| && ForcedIn(trace[i], b, m.beforeToAfter[b].value);
      assert (trace + [v])[i] == trace[i];
    }
  }

  lemma ShapesGrow(l: Tree, r: Tree, m: Mapping, n: Mapping, trace: seq<Visit>, v: Visit, solved: Solved)
    requires GrewWithin(l, r, m, n, Firsts(solved.outcome.forced), Seconds(solved.outcome.forced))
    requires ShapesTraced(m, trace + [v]) && forall p :: p in solved.outcome.forced ==> Recorded(n, p)
    ensures ShapesTraced(n, trace + [v.(solved := v.solved + [solved])])
  {
    hide Consistent;
    ConsistentIsSized(l, r, m);
    ConsistentIsSized(l, r, n);
    var w := v.(solved := v.solved + [solved]);
    forall b: nat | 0 < b && Mapped(n, b) && !Exact(n, b)
      ensures ForcedSomewhere(trace + [w], b, n.beforeToAfter[b].value)
    {
      var a := n.beforeToAfter[b].value;
      if Mapped(m, b) {
        assert !Exact(m, b);
        ForcedKept(trace, v, solved, b, a);
      } else {
        var p :| p in solved.outcome.forced && p.0 == b;
        assert Recorded(n, p);
        assert w.solved[|v.solved|] == solved && (b, a) in solved.outcome.forced;
        assert ForcedIn((trace + [w])[|trace|], b, a);
      }
    }
  }

  lemma ForcedKept(trace: seq<Visit>, v: Visit, solved: Solved, b: nat, a: nat)
    requires ForcedSomewhere(trace + [v], b, a)
    ensures ForcedSomewhere(trace + [v.(solved := v.solved + [solved])], b, a)
  {
    var w := v.(solved := v.solved + [solved]);
    var i :| 0 <= i < |trace| + 1 && ForcedIn((trace + [v])[i], b, a);
    var k :| 0 <= k < |(trace + [v])[i].solved| && (b, a) in (trace + [v])[i].solved[k].outcome.forced;
    assert (trace + [w])[i].solved[k] == (trace + [v])[i].solved[k];
    assert ForcedIn((trace + [w])[i], b, a);
  }

  // ----- the regions of one round

  /** Part of a round: the first regions are solved, the others are still free. */
  ghost predicate PartVisited(l: Tree, r: Tree, m: Mapping, trace: seq<Visit>, p: nat, q: nat, v: Visit) {
    && Current(m, trace, p, q) && TraceHolds(l, r, m, trace) && VisitHolds(l, r, m, m.relations[|trace|], v)
    && (forall k :: |v.solved| <= k < |v.regions| ==> FreeRegion(l, r, m, p, q, v.regions[k]))
    && ShapesTraced(m, trace + [v])
  }

  lemma RegionsApart(l: Tree, r: Tree, m: Mapping, bc: seq<nat>, ac: seq<nat>, barriers: seq<Cell>,
                     regions: seq<Region>,
                     j: nat, k: nat)
    requires WellFormed(l) && WellFormed(r) && ValidIds(l, bc) && ValidIds(r, ac)
    requires SplitAt(m, bc, ac, barriers, regions) && j < |regions| && k < |regions| && j != k
    ensures forall b :: b in regions[j].before ==> b !in regions[k].before
    ensures forall a :: a in regions[j].after ==> a !in regions[k].after
  {
    hide WellFormed, StandsIn, Fences, RegionAt;
    assert IsRegion(m, bc, ac, barriers, j, regions[j]) && IsRegion(m, bc, ac, barriers, k, regions[k]);
    RegionMembers(l, r, m, bc, ac, barriers, j, regions[j]);
    RegionMembers(l, r, m, bc, ac, barriers, k, regions[k]);
    forall b | b in regions[j].before ensures b !in regions[k].before {
      RegionsOrdered(bc, ac, barriers, if j < k then j else k, if j < k then k else j, b, b);
    }
    forall a | a in regions[j].after ensures a !in regions[k].after {
      RegionsOrdered(bc, ac, barriers, if j < k then j else k, if j < k then k else j, a, a);
    }
  }

  lemma SplitIsFree(l: Tree, r: Tree, m: Mapping, p: nat, q: nat, barriers: seq<Cell>, regions: seq<Region>, k: nat)
    requires WellFormed(l) && WellFormed(r) && p < |l.nodes| && q < |r.nodes| && MappedTo(m, p, q)
    requires ValidIds(l, Children(l, p)) && ValidIds(r, Children(r, q))
    requires SplitAt(m, Children(l, p), Children(r, q), barriers, regions) && k < |regions|
    ensures FreeRegion(l, r, m, p, q, regions[k])
  {
    hide WellFormed, StandsIn, Fences, RegionAt;
    assert IsRegion(m, Children(l, p), Children(r, q), barriers, k, regions[k]);
    RegionMembers(l, r, m, Children(l, p), Children(r, q), barriers, k, regions[k]);
  }

  lemma RegionAdvanced(l: Tree, r: Tree, m: Mapping, n: Mapping, trace: seq<Visit>, p: nat, q: nat, v: Visit,
                       o: Outcome)
    requires PartVisited(l, r, m, trace, p, q, v) && |v.solved| < |v.regions|
    requires SolvedHolds(l, r, n, v.regions[|v.solved|], Solved(m, o))
    requires ForcedOf(l, r, m, v.regions[|v.solved|], o.forced)
    requires GrewWithin(l, r, m, n, Firsts(o.forced), Seconds(o.forced)) && EndOf(v) == m
    ensures PartVisited(l, r, n, trace, p, q, v.(solved := v.solved + [Solved(m, o)]))
  {
    hide WellFormed, ValidIds, SolvedHolds, Consistent, ExactChildrenDone;
    hide AreBarriers, SplitAt, FreeChildren, TraceHolds;
    hide SparesOthers, ShapesTraced, PairInEvery, Recorded, InSequence, EndOf;
    var k := |v.solved|;
    var w := v.(solved := v.solved + [Solved(m, o)]);
    NextInSequence(v, Solved(m, o));
    ForcedAreChildren(l, r, m, p, q, v.regions[k], o.forced);
    ChildrenSpareOthers(l, r, m, p, q, Firsts(o.forced), Seconds(o.forced));
    TraceKept(l, r, m, n, trace, p, q, Firsts(o.forced), Seconds(o.forced));
    SolvedRecords(l, r, n, v.regions[k], Solved(m, o));
    ShapesGrow(l, r, m, n, trace, v, Solved(m, o));
    forall j | 0 <= j < |v.regions| && j != k
      ensures forall b :: b in v.regions[j].before ==> b !in Firsts(o.forced)
      ensures forall a :: a in v.regions[j].after ==> a !in Seconds(o.forced)
    {
      ChildrenValid(l, r, p, q);
      RegionsApart(l, r, v.split, Children(l, p), Children(r, q), v.barriers, v.regions, j, k);
    }
    forall j | 0 <= j < |w.solved| ensures SolvedHolds(l, r, n, w.regions[j], w.solved[j]) {
      if j < k {
        SolvedKept(l, r, m, n, v.regions[j], v.solved[j], Firsts(o.forced), Seconds(o.forced));
      }
    }
    forall j | k < j < |v.regions| ensures FreeRegion(l, r, n, p, q, v.regions[j]) {
      FreeChildrenKept(l, r, m, n, p, q, v.regions[j].before, v.regions[j].after, Firsts(o.forced), Seconds(o.forced));
    }
  }

  lemma NextInSequence(v: Visit, next: Solved)
    requires InSequence(v) && next.now == EndOf(v)
    ensures var w := v.(solved := v.solved + [next]);
            InSequence(w) && EndOf(w) == WithShapes(next.now, next.outcome.forced)
  {
    var w := v.(solved := v.solved + [next]);
    forall k | 0 <= k < |w.solved| ensures w.solved[k].now == StateAt(w, k) {
      assert StateAt(w, k) == StateAt(v, k);
    }
  }

  lemma ChildrenValid(l: Tree, r: Tree, p: nat, q: nat)
    requires WellFormed(l) && WellFormed(r) && p < |l.nodes| && q < |r.nodes|
    ensures ValidIds(l, Children(l, p)) && ValidIds(r, Children(r, q))
  {
  }

  lemma ForcedAreChildren(l: Tree, r: Tree, m: Mapping, p: nat, q: nat, region: Region, forced: seq<Pair>)
    requires ForcedOf(l, r, m, region, forced) && FreeRegion(l, r, m, p, q, region)
    ensures WellFormed(l) && WellFormed(r) && p < |l.nodes| && q < |r.nodes|
    ensures forall b :: b in Firsts(forced) ==> b in Children(l, p) && b in region.before
    ensures forall a :: a in Seconds(forced) ==> a in Children(r, q) && a in region.after
  {
    hide WellFormed, PairInEvery, ValidIds;
  }

  lemma SolvedRecords(l: Tree, r: Tree, m: Mapping, region: Region, solved: Solved)
    requires SolvedHolds(l, r, m, region, solved)
    ensures forall p :: p in solved.outcome.forced ==> Recorded(m, p)
  {
    hide RegionReports;
  }

  // ----- one round

  lemma RoundStarts(l: Tree, r: Tree, start: Mapping, m: Mapping, trace: seq<Visit>, p: nat, q: nat,
                    barriers: seq<Cell>,
                    regions: seq<Region>)
    requires Invariant(l, r, m) && Consistent(l, r, start) && p < |l.nodes| && q < |r.nodes|
    requires TraceHolds(l, r, m, trace) && Current(m, trace, p, q)
    requires Sized(l, r, start) && GrewExactly(l, r, start, m) && ShapesTraced(start, trace)
    requires ExactChildrenDone(l, r, start, m, Children(l, p), Children(r, q))
    requires AreBarriers(m, Children(l, p), Children(r, q), barriers)
    requires SplitAt(m, Children(l, p), Children(r, q), barriers, regions)
    ensures PartVisited(l, r, m, trace, p, q, Visit(start, m, barriers, regions, []))
    ensures EndOf(Visit(start, m, barriers, regions, [])) == m
  {
    hide Invariant, WellFormed, Consistent, ValidIds, ExactChildrenDone, AreBarriers, SplitAt, TraceHolds, ShapesTraced;
    hide FreeRegion;
    InvariantParts(l, r, m);
    RelationEnds(l, r, m, |trace|);
    ChildrenValid(l, r, p, q);
    ShapesKept(l, r, start, m, trace, Visit(start, m, barriers, regions, []));
    forall k | 0 <= k < |regions| ensures FreeRegion(l, r, m, p, q, regions[k]) {
      SplitIsFree(l, r, m, p, q, barriers, regions, k);
    }
  }

  lemma RoundEnds(l: Tree, r: Tree, m: Mapping, trace: seq<Visit>, p: nat, q: nat, v: Visit)
    requires PartVisited(l, r, m, trace, p, q, v) && |v.solved| == |v.regions|
    ensures TraceHolds(l, r, m, trace + [v]) && ShapesTraced(m, trace + [v])
  {
    hide VisitHolds, ShapesTraced;
    assert Finished(l, r, m, m.relations[|trace|], v);
  }

  lemma NextRegionFree(l: Tree, r: Tree, m: Mapping, trace: seq<Visit>, p: nat, q: nat, v: Visit)
    requires PartVisited(l, r, m, trace, p, q, v) && |v.solved| < |v.regions|
    ensures FreeRegion(l, r, m, p, q, v.regions[|v.solved|])
  {
  }

  lemma Appended(p: nat, q: nat, solved: seq<Solved>, next: Solved)
    ensures GroupsOfVisit(p, q, solved + [next]) ==
            GroupsOfVisit(p, q, solved) + GroupsOfOutcome(p, q, next.outcome.ambiguities)
  {
    assert (solved + [next])[..|solved|] == solved;
  }

  /** One round: exact children, barriers, and every region between them. */
  method VisitRelation(s: MappingState, p: nat, q: nat, ghost trace: seq<Visit>)
    returns (groups: seq<AmbiguityGroup>, ghost v: Visit)
    requires Invariant(s.before, s.after, s.View()) && TraceHolds(s.before, s.after, s.View(), trace)
    requires Current(s.View(), trace, p, q) && ShapesTraced(s.View(), trace)
    modifies s
    ensures Invariant(s.before, s.after, s.View()) && TraceHolds(s.before, s.after, s.View(), trace + [v])
    ensures Current(s.View(), trace, p, q) && old(s.relations) <= s.relations
    ensures ShapesTraced(s.View(), trace + [v]) && groups == GroupsOfVisit(p, q, v.solved)
    ensures v.start == old(s.View()) && EndOf(v) == s.View()
  {
    hide Invariant, Consistent, Sized, WellFormed, TraceHolds, ShapesTraced;
    hide ValidIds, AreBarriers, SplitAt, GrewExactly;
    hide ExactChildrenDone, PartVisited, FreeRegion, SolvedHolds, ForcedOf, GrewWithin, Firsts, Seconds, MappedTo;
    hide UnmappedBefore, UnmappedAfter, GroupsOfVisit, Within, Distinct, EndOf, WithShapes, InSequence;
    var l, r := s.before, s.after;
    ghost var start := s.View();
    InvariantParts(l, r, start);
    RelationEnds(l, r, start, |trace|);
    MapExactChildren(s, p, q, trace);
    ghost var split := s.View();
    InvariantParts(l, r, split);
    ExactlyGrew(l, r, start, split);
    SplittableChildren(l, r, p, q);
    ghost var barriers;
    var regions;
    regions, barriers := OrderedAlignmentRegions(l, r, s.View(), Children(l, p), Children(r, q));
    RoundStarts(l, r, start, split, trace, p, q, barriers, regions);
    v := Visit(start, split, barriers, regions, []);
    groups := [];
    NoGroups(p, q);
    for k := 0 to |regions|
      invariant Invariant(l, r, s.View()) && PartVisited(l, r, s.View(), trace, p, q, v)
      invariant |v.solved| == k && v.regions == regions && split.relations <= s.relations
      invariant groups == GroupsOfVisit(p, q, v.solved) && v.start == start && EndOf(v) == s.View()
    {
      ghost var m := s.View();
      NextRegionFree(l, r, m, trace, p, q, v);
      var o := SolveRegion(s, p, q, regions[k]);
      WithinGrew(l, r, m, s.View(), Firsts(o.forced), Seconds(o.forced));
      RegionAdvanced(l, r, m, s.View(), trace, p, q, v, o);
      PartInSequence(l, r, m, trace, p, q, v);
      NextInSequence(v, Solved(m, o));
      Appended(p, q, v.solved, Solved(m, o));
      groups := groups + GroupsOfOutcome(p, q, o.ambiguities);
      v := v.(solved := v.solved + [Solved(m, o)]);
    }
    RoundEnds(l, r, s.View(), trace, p, q, v);
    PartIsCurrent(l, r, s.View(), trace, p, q, v);
  }

  lemma PartIsCurrent(l: Tree, r: Tree, m: Mapping, trace: seq<Visit>, p: nat, q: nat, v: Visit)
    requires PartVisited(l, r, m, trace, p, q, v)
    ensures Current(m, trace, p, q)
  {
  }

  lemma PartInSequence(l: Tree, r: Tree, m: Mapping, trace: seq<Visit>, p: nat, q: nat, v: Visit)
    requires PartVisited(l, r, m, trace, p, q, v)
    ensures InSequence(v)
  {
  }

  lemma ExactlyGrew(l: Tree, r: Tree, m: Mapping, n: Mapping)
    requires GrewExactly(l, r, m, n)
    ensures m.relations <= n.relations
  {
  }

  lemma WithinGrew(l: Tree, r: Tree, m: Mapping, n: Mapping, befores: set<nat>, afters: set<nat>)
    requires GrewWithin(l, r, m, n, befores, afters)
    ensures m.relations <= n.relations
  {
  }

  lemma SplittableChildren(l: Tree, r: Tree, p: nat, q: nat)
    requires WellFormed(l) && WellFormed(r) && p < |l.nodes| && q < |r.nodes|
    ensures Within(l, Children(l, p)) && Distinct(Children(l, p))
    ensures Within(r, Children(r, q)) && Distinct(Children(r, q))
  {
  }

  lemma NoGroups(p: nat, q: nat)
    ensures GroupsOfVisit(p, q, []) == []
  {
  }

  // ----- all rounds

  function BeforeIds(groups: seq<AmbiguityGroup>): set<nat> {
    set g, id | g in groups && id in g.before :: id
  }

  function AfterIds(groups: seq<AmbiguityGroup>): set<nat> {
    set g, id | g in groups && id in g.after :: id
  }

  function First(ids: seq<nat>): nat {
    if ids == [] then USIZE_MAX else ids[0]
  }

  predicate GroupLe(g: AmbiguityGroup, h: AmbiguityGroup) {
    g.parentBefore < h.parentBefore || (g.parentBefore == h.parentBefore &&
    (g.parentAfter < h.parentAfter || (g.parentAfter == h.parentAfter &&
    (First(g.before) < First(h.before) || (First(g.before) == First(h.before) && First(g.after) <= First(h.after))))))
  }

  lemma GroupOrder()
    ensures Sorting.TotalPreorder(GroupLe)
  {
  }

  /** The rounds follow one another: each starts from the mapping the one before it left, the last leaves m. */
  ghost predicate Successive(m: Mapping, trace: seq<Visit>) {
    && (forall i :: 0 <= i < |trace| - 1 ==> trace[i + 1].start == EndOf(trace[i]))
    && (trace != [] ==> EndOf(trace[|trace| - 1]) == m)
  }

  /** The mapping the rounds started from. */
  ghost function FirstState(m: Mapping, trace: seq<Visit>): Mapping {
    if trace == [] then m else trace[0].start
  }

  lemma OneMoreRound(m: Mapping, n: Mapping, trace: seq<Visit>, v: Visit)
    requires Successive(m, trace) && v.start == m && EndOf(v) == n
    ensures Successive(n, trace + [v]) && FirstState(n, trace + [v]) == FirstState(m, trace)
  {
    hide EndOf;
  }

  /** The finished worklist: one round per relation, each starting where the one before it ended, and nothing mapped or
      grouped that no round accounts for. */
  ghost predicate Completed(l: Tree, r: Tree, m: Mapping, trace: seq<Visit>) {
    && Invariant(l, r, m) && TraceHolds(l, r, m, trace) && |trace| == |m.relations| && ShapesTraced(m, trace)
    && Successive(m, trace)
  }

  /** The worklist terminates because relations never outnumber nodes; it visits all of them, also those it adds. */
  method AddLocalRelations(s: MappingState)
    returns (groups: seq<AmbiguityGroup>, ambiguousBefore: set<nat>, ambiguousAfter: set<nat>, ghost trace: seq<Visit>)
    requires Invariant(s.before, s.after, s.View()) && ExactBeyondRoot(s.View())
    modifies s
    ensures Completed(s.before, s.after, s.View(), trace) && old(s.relations) <= s.relations
    ensures FirstState(s.View(), trace) == old(s.View())
    ensures Sorting.Sorted(GroupLe, groups)
    ensures groups == Sorting.Sort(GroupLe, GroupsOf(s.relations, trace))
    ensures ambiguousBefore == BeforeIds(GroupsOf(s.relations, trace))
    ensures ambiguousAfter == AfterIds(GroupsOf(s.relations, trace))
  {
    hide Invariant, Consistent, Sized, WellFormed, TraceHolds, ShapesTraced;
    hide GroupsOf, GroupsOfVisit, BeforeIds, AfterIds;
    hide Sorting.Sort, Sorting.Sorted, EndOf, Successive, FirstState;
    groups, ambiguousBefore, ambiguousAfter, trace := [], {}, {}, [];
    var cursor := 0;
    NothingVisited(s.before, s.after, s.View());
    while cursor < |s.relations|
      invariant Invariant(s.before, s.after, s.View()) && TraceHolds(s.before, s.after, s.View(), trace)
      invariant ShapesTraced(s.View(), trace) && cursor == |trace| <= |s.relations| && old(s.relations) <= s.relations
      invariant |s.relations| <= |s.before.nodes|
      invariant Successive(s.View(), trace) && FirstState(s.View(), trace) == old(s.View())
      invariant groups == GroupsOf(s.relations, trace)
      invariant ambiguousBefore == BeforeIds(groups) && ambiguousAfter == AfterIds(groups)
      decreases |s.before.nodes| - cursor
    {
      ghost var relations, m := s.relations, s.View();
      var p, q := s.relations[cursor].before, s.relations[cursor].after;
      cursor := cursor + 1;
      var more;
      ghost var v;
      more, v := VisitRelation(s, p, q, trace);
      GroupsOfPrefix(relations, s.relations, trace);
      GroupsExtended(s.relations, trace, v);
      IdsExtended(groups, more);
      ambiguousBefore := ambiguousBefore + BeforeIds(more);
      ambiguousAfter := ambiguousAfter + AfterIds(more);
      groups := groups + more;
      OneMoreRound(m, s.View(), trace, v);
      trace := trace + [v];
      VisitedBound(s.before, s.after, s.View(), trace);
    }
    GroupOrder();
    Sorting.SortSorted(GroupLe, groups);
    groups := Sorting.Sort(GroupLe, groups);
  }

  lemma VisitedBound(l: Tree, r: Tree, m: Mapping, trace: seq<Visit>)
    requires Invariant(l, r, m) && TraceHolds(l, r, m, trace)
    ensures |trace| <= |m.relations| <= |l.nodes|
  {
    InvariantParts(l, r, m);
    RelationsBounded(l, r, m);
  }

  lemma NothingVisited(l: Tree, r: Tree, m: Mapping)
    requires Invariant(l, r, m) && ExactBeyondRoot(m)
    ensures TraceHolds(l, r, m, []) && ShapesTraced(m, []) && |m.relations| <= |l.nodes|
    ensures GroupsOf(m.relations, []) == [] && BeforeIds([]) == {} && AfterIds([]) == {}
    ensures Successive(m, []) && FirstState(m, []) == m
  {
    VisitedBound(l, r, m, []);
  }

  lemma GroupsExtended(relations: seq<Relation>, trace: seq<Visit>, v: Visit)
    requires |trace| < |relations|
    ensures GroupsOf(relations, trace + [v]) ==
            GroupsOf(relations, trace) +
            GroupsOfVisit(relations[|trace|].before, relations[|trace|].after, v.solved)
  {
    assert (trace + [v])[..|trace|] == trace;
  }

  lemma IdsExtended(groups: seq<AmbiguityGroup>, more: seq<AmbiguityGroup>)
    ensures BeforeIds(groups + more) == BeforeIds(groups) + BeforeIds(more)
    ensures AfterIds(groups + more) == AfterIds(groups) + AfterIds(more)
  {
    assert forall g :: g in groups + more <==> g in groups || g in more;
  }
}
