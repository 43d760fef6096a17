/** What the worklist does with one mapped pair: exact children first, then every region between the barriers. */
module Visits {
  import opened Wrappers
  import opened Chains
  import opened Syntax
  import opened Buckets
  import opened Mappings
  import opened MappingState
  import opened UniquePairs
  import opened Regions
  import opened ShapePairs
  import opened ShapeClasses
  import opened CandidateGroups
  import opened Components
  import opened StableCore
  import opened RegionCore

  /** A solved region: the mapping it was solved against and what the solver reported. */
  datatype Solved = Solved(now: Mapping, outcome: Outcome)

  /** One round of the worklist: the mapping at its start, the mapping its children were split under, and the solved
      regions, in order. */
  datatype Visit = Visit(start: Mapping, split: Mapping, barriers: seq<Cell>, regions: seq<Region>, solved: seq<Solved>)

  /** An earlier state of the same run; since a consistent mapping is determined by its relations, the prefix says
      which. */
  ghost predicate Snapshot(l: Tree, r: Tree, past: Mapping, m: Mapping) {
    Consistent(l, r, past) && past.relations <= m.relations
  }

  ghost predicate ForcedBefore(forced: seq<Pair>, b: nat) {
    exists p :: p in forced && p.0 == b
  }

  ghost predicate ForcedAfter(forced: seq<Pair>, a: nat) {
    exists p :: p in forced && p.1 == a
  }

  /** The asserted pairs of the region are recorded, and its other children are, and stay, unmapped. */
  ghost predicate SolvedHolds(l: Tree, r: Tree, m: Mapping, region: Region, solved: Solved) {
    && RegionReports(l, r, solved.now, region.before, region.after, solved.outcome)
    && Snapshot(l, r, solved.now, m)
    && (forall p :: p in solved.outcome.forced ==> Recorded(m, p))
    && (forall b :: b in region.before && Mapped(m, b) ==> ForcedBefore(solved.outcome.forced, b))
    && (forall a :: a in region.after && AfterMapped(m, a) ==> ForcedAfter(solved.outcome.forced, a))
  }

  ghost predicate Recorded(m: Mapping, p: Pair) {
    MappedTo(m, p.0, p.1) && p.0 < |m.facts| && m.facts[p.0] == Some(SHAPE_FACT)
  }

  /** A pair of unmapped children whose key nothing else on either side has, of equal syntax, and without a conflict. */
  ghost predicate UniqueChildPair(l: Tree, r: Tree, start: Mapping, bc: seq<nat>, ac: seq<nat>, p: Pair)
    requires WellFormed(l) && WellFormed(r) && Sized(l, r, start)
  {
    && Within(l, UnmappedBefore(start, bc)) && Within(r, UnmappedAfter(start, ac))
    && UniquePair(l, r, BySyntax, UnmappedBefore(start, bc), UnmappedAfter(start, ac), p)
    && Mappable(l, r, start, p)
  }

  /** The node was mapped exactly, by position below a unique pair of children. */
  ghost predicate FromUniqueChild(l: Tree, r: Tree, start: Mapping, split: Mapping, bc: seq<nat>, ac: seq<nat>, x: nat)
    requires WellFormed(l) && WellFormed(r) && Sized(l, r, start)
  {
    && Mapped(split, x) && Exact(split, x)
    && exists p: Pair :: UniqueChildPair(l, r, start, bc, ac, p) &&
                         IsoPair(l, r, p.0, p.1, x, split.beforeToAfter[x].value)
  }

  /** The unique pairs of children are mapped, and nothing else is but what lies below them. */
  ghost predicate ExactChildrenDone(l: Tree, r: Tree, start: Mapping, split: Mapping, bc: seq<nat>, ac: seq<nat>)
    requires WellFormed(l) && WellFormed(r) && Sized(l, r, start)
  {
    && (forall p: Pair :: UniqueChildPair(l, r, start, bc, ac, p) ==> MappedTo(split, p.0, p.1))
    && (forall x: nat :: Mapped(split, x) && !Mapped(start, x) ==> FromUniqueChild(l, r, start, split, bc, ac, x))
  }

  ghost predicate Mappable(l: Tree, r: Tree, m: Mapping, p: Pair)
    requires WellFormed(l) && WellFormed(r) && Sized(l, r, m)
  {
    && p.0 < |l.nodes| && p.1 < |r.nodes|
    && CanMapEqualSubtree(l, r, m, p.0, p.1) && SyntaxEqual(l, p.0, r, p.1)
  }

  /** The mapping with the listed pairs recorded as shape pairs, one after another. */
  ghost function WithShapes(m: Mapping, pairs: seq<Pair>): Mapping {
    if pairs == [] then m
    else
      var n := WithShapes(m, pairs[..|pairs| - 1]);
      var (b, a) := pairs[|pairs| - 1];
      if b < |n.beforeToAfter| == |n.facts| && a < |n.afterToBefore| then WithPair(n, b, a, SHAPE_FACT).0 else n
  }

  /** The mapping of a round once k of its regions are solved. */
  ghost function StateAt(v: Visit, k: nat): Mapping
    requires k <= |v.solved|
  {
    if k == 0 then v.split else WithShapes(v.solved[k - 1].now, v.solved[k - 1].outcome.forced)
  }

  ghost function EndOf(v: Visit): Mapping {
    StateAt(v, |v.solved|)
  }

  /** Every region was solved against the mapping its predecessor left. */
  ghost predicate InSequence(v: Visit) {
    forall k :: 0 <= k < |v.solved| ==> v.solved[k].now == StateAt(v, k)
  }

  ghost predicate VisitHolds(l: Tree, r: Tree, m: Mapping, relation: Relation, v: Visit) {
    && WellFormed(l) && WellFormed(r) && relation.before < |l.nodes| && relation.after < |r.nodes|
    && var bc, ac := Children(l, relation.before), Children(r, relation.after);
       && Snapshot(l, r, v.start, v.split) && Snapshot(l, r, v.split, m)
       && ExactChildrenDone(l, r, v.start, v.split, bc, ac)
       && AreBarriers(v.split, bc, ac, v.barriers) && SplitAt(v.split, bc, ac, v.barriers, v.regions)
       && |v.solved| <= |v.regions| && InSequence(v)
       && forall k :: 0 <= k < |v.solved| ==> SolvedHolds(l, r, m, v.regions[k], v.solved[k])
  }

  // ----- what a round leaves alone

  /** An unmapped child of a mapped node. */
  ghost predicate FreeBefore(l: Tree, m: Mapping, x: nat)
    requires WellFormed(l)
  {
    0 < x < |l.nodes| && !Mapped(m, x) && Mapped(m, Parent(l, x))
  }

  ghost predicate FreeAfter(r: Tree, m: Mapping, y: nat)
    requires WellFormed(r)
  {
    0 < y < |r.nodes| && !AfterMapped(m, y) && AfterMapped(m, Parent(r, y))
  }

  /** Nothing that hangs free below another mapped node is touched. */
  ghost predicate SparesOthers(l: Tree, r: Tree, m: Mapping, p: nat, q: nat, befores: set<nat>, afters: set<nat>)
    requires WellFormed(l) && WellFormed(r)
  {
    && (forall x: nat :: FreeBefore(l, m, x) && Parent(l, x) != p ==> x !in befores)
    && (forall y: nat :: FreeAfter(r, m, y) && Parent(r, y) != q ==> y !in afters)
  }

  lemma SolvedKept(l: Tree, r: Tree, m: Mapping, n: Mapping, region: Region, solved: Solved, befores: set<nat>,
                   afters: set<nat>)
    requires SolvedHolds(l, r, m, region, solved) && GrewWithin(l, r, m, n, befores, afters)
    requires forall b :: b in region.before && !Mapped(m, b) ==> b !in befores
    requires forall a :: a in region.after && !AfterMapped(m, a) ==> a !in afters
    ensures SolvedHolds(l, r, n, region, solved)
  {
    hide RegionReports, Consistent;
    ConsistentIsSized(l, r, m);
    ConsistentIsSized(l, r, n);
    forall p | p in solved.outcome.forced ensures Recorded(n, p) {
      assert Recorded(m, p);
    }
  }

  lemma VisitKept(l: Tree, r: Tree, m: Mapping, n: Mapping, relation: Relation, v: Visit, p: nat, q: nat,
                  befores: set<nat>, afters: set<nat>)
    requires VisitHolds(l, r, m, relation, v) && GrewWithin(l, r, m, n, befores, afters)
    requires SparesOthers(l, r, m, p, q, befores, afters)
    requires relation.before != p && relation.after != q && Mapped(m, relation.before) && AfterMapped(m, relation.after)
    ensures VisitHolds(l, r, n, relation, v)
  {
    hide WellFormed, SolvedHolds, Consistent, ExactChildrenDone, AreBarriers, Fences, RegionAt;
    var bc, ac := Children(l, relation.before), Children(r, relation.after);
    forall k | 0 <= k < |v.solved| ensures SolvedHolds(l, r, n, v.regions[k], v.solved[k]) {
      assert IsRegion(v.split, bc, ac, v.barriers, k, v.regions[k]);
      RegionOfChildren(v.split, bc, ac, v.barriers, k, v.regions[k]);
      FreeElsewhere(l, r, m, relation, p, q, befores, afters, v.regions[k]);
      SolvedKept(l, r, m, n, v.regions[k], v.solved[k], befores, afters);
    }
  }

  lemma RegionOfChildren(m: Mapping, bc: seq<nat>, ac: seq<nat>, barriers: seq<Cell>, k: nat, region: Region)
    requires IsRegion(m, bc, ac, barriers, k, region)
    ensures forall b :: b in region.before ==> b in bc
    ensures forall a :: a in region.after ==> a in ac
  {
  }

  lemma FreeElsewhere(l: Tree, r: Tree, m: Mapping, relation: Relation, p: nat, q: nat, befores: set<nat>,
                      afters: set<nat>, region: Region)
    requires WellFormed(l) && WellFormed(r) && relation.before < |l.nodes| && relation.after < |r.nodes|
    requires SparesOthers(l, r, m, p, q, befores, afters)
    requires relation.before != p && relation.after != q && Mapped(m, relation.before) && AfterMapped(m, relation.after)
    requires forall b :: b in region.before ==> b in Children(l, relation.before)
    requires forall a :: a in region.after ==> a in Children(r, relation.after)
    ensures forall b :: b in region.before && !Mapped(m, b) ==> b !in befores
    ensures forall a :: a in region.after && !AfterMapped(m, a) ==> a !in afters
  {
    hide WellFormed;
    forall b | b in region.before && !Mapped(m, b) ensures b !in befores {
      ParentOfChild(l, relation.before, b);
    }
    forall a | a in region.after && !AfterMapped(m, a) ensures a !in afters {
      ParentOfChild(r, relation.after, a);
    }
  }

  /** Mapping a whole subtree below a child of p spares what hangs free below other mapped nodes. */
  lemma SubtreeSparesOthers(l: Tree, r: Tree, m: Mapping, p: nat, q: nat, b: nat, a: nat)
    requires Invariant(l, r, m) && 0 < b < |l.nodes| && 0 < a < |r.nodes| && Parent(l, b) == p && Parent(r, a) == q
    requires !Mapped(m, b) && !AfterMapped(m, a)
    ensures SparesOthers(l, r, m, p, q, SubtreeSet(l, b), SubtreeSet(r, a))
  {
    hide WellFormed, Sound, ShapeAbove, ChildrenStay, ExactBelow;
    InvariantParts(l, r, m);
    forall x: nat | FreeBefore(l, m, x) && Parent(l, x) != p
      ensures x !in SubtreeSet(l, b)
    {
      FreeChildNotBelow(l, r, m, Parent(l, x), x, b);
    }
    forall y: nat | FreeAfter(r, m, y) && Parent(r, y) != q
      ensures y !in SubtreeSet(r, a)
    {
      AfterNotBelow(l, r, m, y, a);
    }
  }

  lemma AfterNotBelow(l: Tree, r: Tree, m: Mapping, y: nat, a: nat)
    requires Invariant(l, r, m) && 0 < y < |r.nodes| && !AfterMapped(m, y) && AfterMapped(m, Parent(r, y))
    requires 0 < a < |r.nodes| && !AfterMapped(m, a) && Parent(r, a) != Parent(r, y)
    ensures !InSubtree(r, a, y)
  {
    hide WellFormed, Sound, ShapeAbove, ChildrenStay;
    InvariantParts(l, r, m);
    var q := Parent(r, y);
    PartnerOf(l, r, m, q);
    var p := m.afterToBefore[q].value;
    if Exact(m, p) {
      ExactMapsAfterChild(l, r, m, p, q, y);
    }
    if InSubtree(r, a, y) {
      AfterAncestorsMapped(l, r, m, p, a);
    }
  }

  lemma ExactMapsAfterChild(l: Tree, r: Tree, m: Mapping, p: nat, q: nat, y: nat)
    requires Invariant(l, r, m) && p < |l.nodes| && MappedTo(m, p, q) && Exact(m, p)
    requires 0 < y < |r.nodes| && Parent(r, y) == q
    ensures AfterMapped(m, y)
  {
    assert ExactChildren(l, r, m, p, q);
    var k: nat :| k < |Children(r, q)| && Children(r, q)[k] == y;
    PartnerBack(l, r, m, Children(l, p)[k], y);
  }

  lemma PartnerOf(l: Tree, r: Tree, m: Mapping, a: nat)
    requires Consistent(l, r, m) && AfterMapped(m, a)
    ensures MappedTo(m, m.afterToBefore[a].value, a)
  {
  }

  lemma PartnerBack(l: Tree, r: Tree, m: Mapping, b: nat, a: nat)
    requires Consistent(l, r, m) && MappedTo(m, b, a)
    ensures AfterMapped(m, a) && m.afterToBefore[a] == Some(b)
  {
  }

  lemma ChildrenSpareOthers(l: Tree, r: Tree, m: Mapping, p: nat, q: nat, befores: set<nat>, afters: set<nat>)
    requires WellFormed(l) && WellFormed(r) && p < |l.nodes| && q < |r.nodes|
    requires forall b :: b in befores ==> b in Children(l, p)
    requires forall a :: a in afters ==> a in Children(r, q)
    ensures SparesOthers(l, r, m, p, q, befores, afters)
  {
    forall b | b in befores ensures 0 < b < |l.nodes| && Parent(l, b) == p {
      ParentOfChild(l, p, b);
    }
    forall a | a in afters ensures 0 < a < |r.nodes| && Parent(r, a) == q {
      ParentOfChild(r, q, a);
    }
  }

  // ----- solving one region

  /** An unsolved region of the pair (p, q): distinct children, all of them free. */
  ghost predicate FreeRegion(l: Tree, r: Tree, m: Mapping, p: nat, q: nat, region: Region) {
    && ValidIds(l, region.before) && ValidIds(r, region.after)
    && FreeChildren(l, r, m, p, q, region.before, region.after)
  }

  ghost function Firsts(pairs: seq<Pair>): set<nat> {
    set p | p in pairs :: p.0
  }

  ghost function Seconds(pairs: seq<Pair>): set<nat> {
    set p | p in pairs :: p.1
  }

  /** The first i asserted pairs are recorded and nothing else has changed. */
  ghost predicate RecordedUpTo(l: Tree, r: Tree, m: Mapping, n: Mapping, forced: seq<Pair>, i: nat) {
    && i <= |forced|
    && GrewWithin(l, r, m, n, Firsts(forced[..i]), Seconds(forced[..i]))
    && forall j :: 0 <= j < i ==> Recorded(n, forced[j])
  }

  ghost predicate ForcedOf(l: Tree, r: Tree, m: Mapping, region: Region, forced: seq<Pair>) {
    && (forall p :: p in forced ==> p.0 in region.before && p.1 in region.after &&
                                    PairInEvery(l, r, m, region.before, region.after, p.0, p.1))
    && (forall i, j :: 0 <= i < j < |forced| ==> forced[i].0 != forced[j].0 && forced[i].1 != forced[j].1)
  }

  lemma ReportedForced(l: Tree, r: Tree, m: Mapping, region: Region, o: Outcome)
    requires RegionReports(l, r, m, region.before, region.after, o)
    requires ValidIds(l, region.before) && ValidIds(r, region.after)
    ensures ForcedOf(l, r, m, region, o.forced)
  {
    hide PairInEvery, PairInSome, GoodAmbiguity, AmbiguitiesApart, Explains, ValidGroups, ValidIds;
    forall i, j | 0 <= i < j < |o.forced| ensures o.forced[i].0 != o.forced[j].0 && o.forced[i].1 != o.forced[j].1 {
      assert o.forced[i] in o.forced && o.forced[j] in o.forced;
      ForcedOrdered(l, r, m, region.before, region.after, o.forced[i], o.forced[j]);
    }
  }

  /** The next asserted pair is still free and compatible, because the pairs before it are its siblings. */
  lemma NextPairFits(l: Tree, r: Tree, m: Mapping, n: Mapping, p: nat, q: nat, region: Region,
                     forced: seq<Pair>, i: nat)
    requires Invariant(l, r, n) && FreeRegion(l, r, m, p, q, region) && ForcedOf(l, r, m, region, forced)
    requires RecordedUpTo(l, r, m, n, forced, i) && i < |forced|
    ensures ShapeStep(l, r, n, p, q, forced[i].0, forced[i].1)
  {
    hide Invariant, Consistent, PairInEvery, ShapeEqual, CanMapShapePair, ValidIds, KeyOf;
    InvariantParts(l, r, n);
    var b, a := forced[i].0, forced[i].1;
    assert forced[i] in forced;
    ForcedCompatible(l, r, m, region.before, region.after, b, a);
    ParentOfChild(l, p, b);
    ParentOfChild(r, q, a);
    ConsistentIsSized(l, r, m);
    assert b !in Firsts(forced[..i]) && a !in Seconds(forced[..i]);
    assert MappedTo(n, p, q);
    SiblingsAgree(l, r, m, n, p, q, b, a, Firsts(forced[..i]), Seconds(forced[..i]));
    CanMapShapeFrame(l, r, m, n, b, a);
  }

  /** Mapping siblings leaves alone what lies below b and a. */
  lemma SiblingsAgree(l: Tree, r: Tree, m: Mapping, n: Mapping, p: nat, q: nat, b: nat, a: nat, befores: set<nat>,
                      afters: set<nat>)
    requires WellFormed(l) && WellFormed(r) && GrewWithin(l, r, m, n, befores, afters)
    requires p < |l.nodes| && q < |r.nodes| && b in Children(l, p) && a in Children(r, q)
    requires forall x :: x in befores ==> x in Children(l, p) && x != b
    requires forall y :: y in afters ==> y in Children(r, q) && y != a
    ensures AgreeBelow(l, r, m, n, b, a)
  {
    hide WellFormed, Consistent;
    ConsistentIsSized(l, r, m);
    ConsistentIsSized(l, r, n);
    forall x: nat | InSubtree(l, b, x) ensures x !in befores {
      if x in befores {
        SiblingsDisjoint(l, p, b, x, x);
      }
    }
    forall y: nat | InSubtree(r, a, y) ensures y !in afters && m.afterToBefore[y] == n.afterToBefore[y] {
      if y in afters {
        SiblingsDisjoint(r, q, a, y, y);
      }
      AfterUnchanged(l, r, m, n, befores, afters, y);
    }
  }

  lemma AfterUnchanged(l: Tree, r: Tree, m: Mapping, n: Mapping, befores: set<nat>, afters: set<nat>, y: nat)
    requires GrewWithin(l, r, m, n, befores, afters) && y < |r.nodes| && y !in afters
    ensures Sized(l, r, m) && Sized(l, r, n) && m.afterToBefore[y] == n.afterToBefore[y]
  {
    if AfterMapped(m, y) {
      PartnerOf(l, r, m, y);
      assert MappedTo(n, m.afterToBefore[y].value, y);
    }
  }

  lemma PairRecorded(l: Tree, r: Tree, m: Mapping, n: Mapping, o: Mapping, forced: seq<Pair>, i: nat)
    requires RecordedUpTo(l, r, m, n, forced, i) && i < |forced|
    requires forced[i].0 < |l.nodes| && forced[i].1 < |r.nodes| && Sized(l, r, n)
    requires !Mapped(n, forced[i].0) && !AfterMapped(n, forced[i].1)
    requires o == WithPair(n, forced[i].0, forced[i].1, SHAPE_FACT).0
    ensures RecordedUpTo(l, r, m, o, forced, i + 1)
  {
    hide Consistent;
    PairGrew(l, r, n, forced[i].0, forced[i].1, SHAPE_FACT);
    GrewFurther(l, r, m, n, o, Firsts(forced[..i]), Seconds(forced[..i]), {forced[i].0}, {forced[i].1});
    assert forced[..i + 1] == forced[..i] + [forced[i]];
    assert Firsts(forced[..i + 1]) == Firsts(forced[..i]) + {forced[i].0} by {
      assert forced[i] in forced[..i + 1];
    }
    assert Seconds(forced[..i + 1]) == Seconds(forced[..i]) + {forced[i].1} by {
      assert forced[i] in forced[..i + 1];
    }
    forall j | 0 <= j < i + 1 ensures Recorded(o, forced[j]) {
      if j < i {
        assert Recorded(n, forced[j]);
      }
    }
  }

  lemma RegionSolved(l: Tree, r: Tree, m: Mapping, n: Mapping, p: nat, q: nat, region: Region, o: Outcome)
    requires FreeRegion(l, r, m, p, q, region)
    requires RegionReports(l, r, m, region.before, region.after, o) && ForcedOf(l, r, m, region, o.forced)
    requires RecordedUpTo(l, r, m, n, o.forced, |o.forced|)
    ensures SolvedHolds(l, r, n, region, Solved(m, o))
    ensures GrewWithin(l, r, m, n, Firsts(o.forced), Seconds(o.forced))
  {
    hide Consistent, RegionReports, PairInEvery, ValidIds, WellFormed;
    var forced := o.forced;
    assert forced[..|forced|] == forced;
    forall x | x in forced ensures Recorded(n, x) {
      var j :| 0 <= j < |forced| && forced[j] == x;
      assert Recorded(n, forced[j]);
    }
  }

  /** Solving a region records exactly the asserted pairs; each of them finds both its ends free. */
  method SolveRegion(s: MappingState, p: nat, q: nat, region: Region) returns (o: Outcome)
    requires Invariant(s.before, s.after, s.View()) && FreeRegion(s.before, s.after, s.View(), p, q, region)
    modifies s
    ensures Invariant(s.before, s.after, s.View())
    ensures SolvedHolds(s.before, s.after, s.View(), region, Solved(old(s.View()), o))
    ensures ForcedOf(s.before, s.after, old(s.View()), region, o.forced)
    ensures GrewWithin(s.before, s.after, old(s.View()), s.View(), Firsts(o.forced), Seconds(o.forced))
    ensures s.View() == WithShapes(old(s.View()), o.forced)
  {
    hide Invariant, Consistent, Sized, WellFormed, ValidIds, RegionReports, ForcedOf, RecordedUpTo, SolvedHolds;
    hide WithShapes;
    hide GrewWithin, Firsts, Seconds, FreeChildren, Mapped, AfterMapped, ShapeEqual, CanMapShapePair;
    ghost var m := s.View();
    InvariantParts(s.before, s.after, m);
    o := BoundedOrderedStableCore(s.before, s.after, s.View(), region.before, region.after);
    ReportedForced(s.before, s.after, m, region, o);
    NothingRecorded(s.before, s.after, m, o.forced);
    for i := 0 to |o.forced|
      invariant Invariant(s.before, s.after, s.View())
      invariant RecordedUpTo(s.before, s.after, m, s.View(), o.forced, i)
      invariant s.View() == WithShapes(m, o.forced[..i])
    {
      var (b, a) := o.forced[i];
      ghost var n := s.View();
      NextPairFits(s.before, s.after, m, n, p, q, region, o.forced, i);
      InvariantParts(s.before, s.after, n);
      StepParts(s.before, s.after, n, p, q, b, a);
      var ok := s.MapPair(b, a, ShapeEqualPair, ModelForced);
      assert ok;
      ShapePairKeepsInvariant(s.before, s.after, n, p, q, b, a);
      PairRecorded(s.before, s.after, m, n, s.View(), o.forced, i);
      ShapesExtended(s.before, s.after, m, n, o.forced, i);
    }
    assert o.forced[..|o.forced|] == o.forced;
    RegionSolved(s.before, s.after, m, s.View(), p, q, region, o);
  }

  lemma ShapesExtended(l: Tree, r: Tree, m: Mapping, n: Mapping, pairs: seq<Pair>, i: nat)
    requires i < |pairs| && n == WithShapes(m, pairs[..i]) && Sized(l, r, n)
    requires pairs[i].0 < |l.nodes| && pairs[i].1 < |r.nodes|
    ensures WithShapes(m, pairs[..i + 1]) == WithPair(n, pairs[i].0, pairs[i].1, SHAPE_FACT).0
  {
    assert pairs[..i + 1][..i] == pairs[..i];
  }

  lemma NothingRecorded(l: Tree, r: Tree, m: Mapping, forced: seq<Pair>)
    requires Consistent(l, r, m)
    ensures RecordedUpTo(l, r, m, m, forced, 0) && WithShapes(m, forced[..0]) == m
  {
    GrewNothing(l, r, m);
    assert forced[..0] == [];
    assert Firsts(forced[..0]) == {} && Seconds(forced[..0]) == {};
  }

  lemma StepParts(l: Tree, r: Tree, m: Mapping, p: nat, q: nat, b: nat, a: nat)
    requires ShapeStep(l, r, m, p, q, b, a)
    ensures b < |l.nodes| && a < |r.nodes| && !Mapped(m, b) && !AfterMapped(m, a)
    ensures b < |m.beforeToAfter| && a < |m.afterToBefore| && m.beforeToAfter[b].None? && m.afterToBefore[a].None?
  {
  }
}
