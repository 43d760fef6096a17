/** The first half of a round: the children that are identical and unique under a mapped pair. */
module ExactChildrenPass {
  import opened Wrappers
  import opened Syntax
  import opened Buckets
  import opened Mappings
  import opened MappingState
  import opened UniquePairs
  import opened Regions
  import opened ShapePairs
  import opened Visits

  // ----- what every round keeps of the rounds before it

  ghost predicate TraceHolds(l: Tree, r: Tree, m: Mapping, trace: seq<Visit>) {
    && |trace| <= |m.relations|
    && forall i :: 0 <= i < |trace| ==> Finished(l, r, m, m.relations[i], trace[i])
  }

  ghost predicate Finished(l: Tree, r: Tree, m: Mapping, relation: Relation, v: Visit) {
    VisitHolds(l, r, m, relation, v) && |v.solved| == |v.regions|
  }

  ghost predicate Current(m: Mapping, trace: seq<Visit>, p: nat, q: nat) {
    |trace| < |m.relations| && m.relations[|trace|].before == p && m.relations[|trace|].after == q
  }

  lemma RelationEnds(l: Tree, r: Tree, m: Mapping, i: nat)
    requires Consistent(l, r, m) && i < |m.relations|
    ensures MappedTo(m, m.relations[i].before, m.relations[i].after) && m.relations[i].before < |l.nodes|
    ensures AfterMapped(m, m.relations[i].after) && m.relations[i].after < |r.nodes|
  {
    assert Records(m, m.relations[i]);
  }

  lemma RelationsDiffer(l: Tree, r: Tree, m: Mapping, i: nat, j: nat)
    requires Consistent(l, r, m) && i < j < |m.relations|
    ensures m.relations[i].before != m.relations[j].before && m.relations[i].after != m.relations[j].after
  {
    assert Records(m, m.relations[i]) && Records(m, m.relations[j]);
  }

  lemma TraceKept(l: Tree, r: Tree, m: Mapping, n: Mapping, trace: seq<Visit>, p: nat, q: nat, befores: set<nat>,
                  afters: set<nat>)
    requires WellFormed(l) && WellFormed(r) && TraceHolds(l, r, m, trace) && Current(m, trace, p, q)
    requires GrewWithin(l, r, m, n, befores, afters) && SparesOthers(l, r, m, p, q, befores, afters)
    ensures TraceHolds(l, r, n, trace) && Current(n, trace, p, q)
  {
    hide WellFormed, VisitHolds, SparesOthers, Consistent;
    forall i | 0 <= i < |trace| ensures Finished(l, r, n, n.relations[i], trace[i]) {
      assert Finished(l, r, m, m.relations[i], trace[i]);
      RelationsDiffer(l, r, m, i, |trace|);
      RelationEnds(l, r, m, i);
      VisitKept(l, r, m, n, m.relations[i], trace[i], p, q, befores, afters);
    }
  }

  // ----- one pair of children after another

  ghost predicate GrewExactly(l: Tree, r: Tree, m: Mapping, n: Mapping) {
    && Sized(l, r, m) && Sized(l, r, n) && m.relations <= n.relations
    && (forall x: nat :: Mapped(m, x) ==> n.beforeToAfter[x] == m.beforeToAfter[x] && n.facts[x] == m.facts[x])
    && (forall x: nat :: Mapped(n, x) && !Mapped(m, x) ==> Exact(n, x))
  }

  /** Distinct free children of p and q, pairwise. */
  ghost predicate FreePairs(l: Tree, r: Tree, m: Mapping, p: nat, q: nat, pairs: seq<Pair>) {
    && WellFormed(l) && WellFormed(r) && p < |l.nodes| && q < |r.nodes| && OneToOne(pairs)
    && forall k :: 0 <= k < |pairs| ==> FreePair(l, r, m, p, q, pairs[k])
  }

  ghost predicate FreePair(l: Tree, r: Tree, m: Mapping, p: nat, q: nat, pair: Pair)
    requires WellFormed(l) && WellFormed(r)
  {
    && 0 < pair.0 < |l.nodes| && 0 < pair.1 < |r.nodes| && Parent(l, pair.0) == p && Parent(r, pair.1) == q
    && !Mapped(m, pair.0) && !AfterMapped(m, pair.1)
  }

  ghost predicate ExactProgress(l: Tree, r: Tree, start: Mapping, now: Mapping, pairs: seq<Pair>, i: nat)
    requires WellFormed(l) && WellFormed(r)
  {
    && i <= |pairs| && GrewExactly(l, r, start, now)
    && (forall j :: 0 <= j < i && Mappable(l, r, start, pairs[j]) ==> MappedTo(now, pairs[j].0, pairs[j].1))
    && (forall j :: i <= j < |pairs| ==> AgreeBelow(l, r, start, now, pairs[j].0, pairs[j].1))
    && (forall x: nat :: Mapped(now, x) && !Mapped(start, x) ==> TakenFrom(l, r, start, now, pairs, i, x))
  }

  /** The node was mapped by position below one of the first i pairs. */
  ghost predicate TakenFrom(l: Tree, r: Tree, start: Mapping, now: Mapping, pairs: seq<Pair>, i: nat, x: nat)
    requires WellFormed(l) && WellFormed(r) && Sized(l, r, start)
  {
    exists j :: 0 <= j < i && j < |pairs| && Mappable(l, r, start, pairs[j]) && Mapped(now, x) &&
        IsoPair(l, r, pairs[j].0, pairs[j].1, x, now.beforeToAfter[x].value)
  }

  lemma NextPairFree(l: Tree, r: Tree, start: Mapping, m: Mapping, p: nat, q: nat, pairs: seq<Pair>, i: nat)
    requires FreePairs(l, r, start, p, q, pairs) && ExactProgress(l, r, start, m, pairs, i) && i < |pairs|
    ensures FreePair(l, r, m, p, q, pairs[i])
    ensures Mappable(l, r, start, pairs[i]) <==> Mappable(l, r, m, pairs[i])
  {
    hide WellFormed, SyntaxEqual, CanMapEqualSubtree;
    var (b, a) := pairs[i];
    assert AgreeBelow(l, r, start, m, b, a);
    assert FreePair(l, r, start, p, q, pairs[i]);
    assert InSubtree(l, b, b) && InSubtree(r, a, a);
    if Mappable(l, r, start, pairs[i]) {
      CanMapEqualFrame(l, r, start, m, b, a);
    }
    if Mappable(l, r, m, pairs[i]) {
      assert AgreeBelow(l, r, m, start, b, a);
      CanMapEqualFrame(l, r, m, start, b, a);
    }
  }

  lemma PairKeepsInvariant(l: Tree, r: Tree, m: Mapping, n: Mapping, p: nat, q: nat, pair: Pair)
    requires Invariant(l, r, m) && MappedTo(m, p, q) && FreePair(l, r, m, p, q, pair) && Mappable(l, r, m, pair)
    requires Consistent(l, r, n) && GrownBy(l, r, m, n, pair.0, pair.1) && AllIsoMapped(l, r, n, pair.0, pair.1)
    ensures Invariant(l, r, n) && MappedTo(n, p, q) && MappedTo(n, pair.0, pair.1)
    ensures GrewWithin(l, r, m, n, SubtreeSet(l, pair.0), SubtreeSet(r, pair.1))
    ensures SparesOthers(l, r, m, p, q, SubtreeSet(l, pair.0), SubtreeSet(r, pair.1))
  {
    hide Invariant, WellFormed, SyntaxEqual, CanMapEqualSubtree, Consistent, SubtreeSet, SparesOthers, AllIsoMapped;
    hide NewlyExact;
    InvariantParts(l, r, m);
    EqualSubtreeKeepsInvariant(l, r, m, n, pair.0, pair.1);
    SubtreeSparesOthers(l, r, m, p, q, pair.0, pair.1);
    EqualSubtreeGrew(l, r, m, n, pair.0, pair.1);
    RootIso(l, r, n, pair.0, pair.1);
  }

  lemma RootIso(l: Tree, r: Tree, n: Mapping, b: nat, a: nat)
    requires WellFormed(l) && WellFormed(r) && b < |l.nodes| && a < |r.nodes| && AllIsoMapped(l, r, n, b, a)
    ensures MappedTo(n, b, a)
  {
    assert IsoPair(l, r, b, a, b, a);
  }

  lemma ExactGrowth(l: Tree, r: Tree, start: Mapping, m: Mapping, n: Mapping, b: nat, a: nat)
    requires WellFormed(l) && WellFormed(r) && Sized(l, r, m) && Sized(l, r, n)
    requires GrewExactly(l, r, start, m) && GrownBy(l, r, m, n, b, a)
    ensures GrewExactly(l, r, start, n)
  {
    hide WellFormed, IsoPair, ClaimHolds;
    forall x: nat | Mapped(n, x) && !Mapped(start, x) ensures Exact(n, x) {
      assert !Mapped(m, x) ==> NewlyExact(l, r, n, b, a, x);
    }
  }

  lemma SiblingPairsAgree(l: Tree, r: Tree, start: Mapping, m: Mapping, n: Mapping, p: nat, q: nat, pairs: seq<Pair>,
                          i: nat, j: nat)
    requires FreePairs(l, r, start, p, q, pairs) && i < j < |pairs|
    requires Consistent(l, r, m) && Consistent(l, r, n) && Sized(l, r, m) && Sized(l, r, n)
    requires GrownBy(l, r, m, n, pairs[i].0, pairs[i].1)
    requires AgreeBelow(l, r, start, m, pairs[j].0, pairs[j].1)
    ensures AgreeBelow(l, r, start, n, pairs[j].0, pairs[j].1)
  {
    hide WellFormed, Consistent, GrownBy;
    assert FreePair(l, r, start, p, q, pairs[i]) && FreePair(l, r, start, p, q, pairs[j]);
    forall x: nat | InSubtree(l, pairs[i].0, x) ensures !InSubtree(l, pairs[j].0, x) {
      SiblingsDisjoint(l, p, pairs[i].0, pairs[j].0, x);
    }
    forall y: nat | InSubtree(r, pairs[i].1, y) ensures !InSubtree(r, pairs[j].1, y) {
      SiblingsDisjoint(r, q, pairs[i].1, pairs[j].1, y);
    }
    GrowthElsewhere(l, r, m, n, pairs[i].0, pairs[i].1, pairs[j].0, pairs[j].1);
  }

  lemma PairTried(l: Tree, r: Tree, start: Mapping, m: Mapping, n: Mapping, p: nat, q: nat, pairs: seq<Pair>, i: nat,
                  ok: bool)
    requires WellFormed(l) && WellFormed(r)
    requires FreePairs(l, r, start, p, q, pairs) && ExactProgress(l, r, start, m, pairs, i) && i < |pairs|
    requires Consistent(l, r, m) && Consistent(l, r, n) && Sized(l, r, m) && Sized(l, r, n)
    requires ok <==> Mappable(l, r, m, pairs[i])
    requires !ok ==> n == m
    requires ok ==> GrownBy(l, r, m, n, pairs[i].0, pairs[i].1) && MappedTo(n, pairs[i].0, pairs[i].1)
    ensures ExactProgress(l, r, start, n, pairs, i + 1)
  {
    hide WellFormed, Consistent, Mappable, AgreeBelow, FreePairs, NewlyExact;
    NextPairFree(l, r, start, m, p, q, pairs, i);
    NewlyTaken(l, r, start, m, n, pairs, i, ok);
    if ok {
      ExactGrowth(l, r, start, m, n, pairs[i].0, pairs[i].1);
      forall j | i < j < |pairs| ensures AgreeBelow(l, r, start, n, pairs[j].0, pairs[j].1) {
        SiblingPairsAgree(l, r, start, m, n, p, q, pairs, i, j);
      }
    }
  }

  lemma NewlyTaken(l: Tree, r: Tree, start: Mapping, m: Mapping, n: Mapping, pairs: seq<Pair>, i: nat, ok: bool)
    requires WellFormed(l) && WellFormed(r) && ExactProgress(l, r, start, m, pairs, i) && i < |pairs|
    requires Sized(l, r, m) && Sized(l, r, n) && if ok then Mappable(l, r, start, pairs[i]) else n == m
    requires ok ==> GrownBy(l, r, m, n, pairs[i].0, pairs[i].1)
    ensures forall x: nat :: Mapped(n, x) && !Mapped(start, x) ==> TakenFrom(l, r, start, n, pairs, i + 1, x)
  {
    hide WellFormed, Mappable, AgreeBelow, IsoPair, ClaimHolds;
    forall x: nat | Mapped(n, x) && !Mapped(start, x) ensures TakenFrom(l, r, start, n, pairs, i + 1, x) {
      if Mapped(m, x) {
        assert TakenFrom(l, r, start, m, pairs, i, x);
      } else {
        assert NewlyExact(l, r, n, pairs[i].0, pairs[i].1, x);
      }
    }
  }

  lemma ChildPairsFree(l: Tree, r: Tree, m: Mapping, p: nat, q: nat, pairs: seq<Pair>)
    requires WellFormed(l) && WellFormed(r) && p < |l.nodes| && q < |r.nodes| && OneToOne(pairs)
    requires ValidIds(l, UnmappedBefore(m, Children(l, p))) && ValidIds(r, UnmappedAfter(m, Children(r, q)))
    requires forall x :: x in pairs ==>
               UniquePair(l, r, BySyntax, UnmappedBefore(m, Children(l, p)), UnmappedAfter(m, Children(r, q)), x)
    ensures FreePairs(l, r, m, p, q, pairs)
  {
    hide WellFormed, UniquePair, OneToOne, Within;
    forall k | 0 <= k < |pairs| ensures FreePair(l, r, m, p, q, pairs[k]) {
      assert pairs[k] in pairs;
      UniquePairMembers(l, r, BySyntax, UnmappedBefore(m, Children(l, p)), UnmappedAfter(m, Children(r, q)), pairs[k]);
      ParentOfChild(l, p, pairs[k].0);
      ParentOfChild(r, q, pairs[k].1);
    }
  }

  lemma UnmappedValid(l: Tree, r: Tree, m: Mapping, p: nat, q: nat)
    requires WellFormed(l) && WellFormed(r) && p < |l.nodes| && q < |r.nodes|
    ensures ValidIds(l, Children(l, p)) && ValidIds(r, Children(r, q))
    ensures ValidIds(l, UnmappedBefore(m, Children(l, p))) && ValidIds(r, UnmappedAfter(m, Children(r, q)))
  {
    var bc, ac := Children(l, p), Children(r, q);
    hide WellFormed;
    UnmappedDistinct(m, bc);
    UnmappedDistinct(m, ac);
    forall k | 0 <= k < |UnmappedBefore(m, bc)| ensures UnmappedBefore(m, bc)[k] < |l.nodes| {
      assert UnmappedBefore(m, bc)[k] in bc;
    }
    forall k | 0 <= k < |UnmappedAfter(m, ac)| ensures UnmappedAfter(m, ac)[k] < |r.nodes| {
      assert UnmappedAfter(m, ac)[k] in ac;
    }
  }

  lemma AllPairsDone(l: Tree, r: Tree, start: Mapping, m: Mapping, p: nat, q: nat, pairs: seq<Pair>)
    requires WellFormed(l) && WellFormed(r) && p < |l.nodes| && q < |r.nodes|
    requires ExactProgress(l, r, start, m, pairs, |pairs|)
    requires ValidIds(l, UnmappedBefore(start, Children(l, p))) && ValidIds(r, UnmappedAfter(start, Children(r, q)))
    requires forall x :: x in pairs <==>
               UniquePair(l, r, BySyntax, UnmappedBefore(start, Children(l, p)), UnmappedAfter(start, Children(r, q)),
                          x)
    ensures GrewExactly(l, r, start, m)
    ensures ExactChildrenDone(l, r, start, m, Children(l, p), Children(r, q))
  {
    hide WellFormed, UniquePair, Mappable, Distinct, IsoPair;
    var bc, ac := Children(l, p), Children(r, q);
    forall x: nat | Mapped(m, x) && !Mapped(start, x) ensures FromUniqueChild(l, r, start, m, bc, ac, x) {
      assert TakenFrom(l, r, start, m, pairs, |pairs|, x);
      var j :| 0 <= j < |pairs| && Mappable(l, r, start, pairs[j]) &&
               IsoPair(l, r, pairs[j].0, pairs[j].1, x, m.beforeToAfter[x].value);
      assert pairs[j] in pairs;
      assert UniqueChildPair(l, r, start, bc, ac, pairs[j]);
    }
  }

  lemma NothingTried(l: Tree, r: Tree, m: Mapping, pairs: seq<Pair>)
    requires WellFormed(l) && WellFormed(r) && Sized(l, r, m)
    ensures ExactProgress(l, r, m, m, pairs, 0)
  {
  }

  method MapExactChildren(s: MappingState, p: nat, q: nat, ghost trace: seq<Visit>)
    requires Invariant(s.before, s.after, s.View()) && p < |s.before.nodes| && q < |s.after.nodes|
    requires TraceHolds(s.before, s.after, s.View(), trace) && Current(s.View(), trace, p, q)
    modifies s
    ensures Invariant(s.before, s.after, s.View())
    ensures TraceHolds(s.before, s.after, s.View(), trace) && Current(s.View(), trace, p, q)
    ensures GrewExactly(s.before, s.after, old(s.View()), s.View())
    ensures ExactChildrenDone(s.before, s.after, old(s.View()), s.View(), Children(s.before, p), Children(s.after, q))
  {
    hide Invariant, Consistent, Sized, WellFormed, TraceHolds, ValidIds, UniquePair, OneToOne, FreePairs, ExactProgress;
    hide CanMapEqualSubtree, SyntaxEqual, GrownBy, AllIsoMapped, GrewExactly, ExactChildrenDone, UnmappedBefore;
    hide UnmappedAfter, GrewWithin, SubtreeSet, SparesOthers, FreePair, MappedTo;
    var l, r := s.before, s.after;
    ghost var start := s.View();
    InvariantParts(l, r, start);
    UnmappedValid(l, r, start, p, q);
    var befores := UnmappedBefore(s.View(), Children(l, p));
    var afters := UnmappedAfter(s.View(), Children(r, q));
    var pairs := FindUniquePairs(l, r, BySyntax, befores, afters);
    ChildPairsFree(l, r, start, p, q, pairs);
    NothingTried(l, r, start, pairs);
    for i := 0 to |pairs|
      invariant Invariant(l, r, s.View()) && TraceHolds(l, r, s.View(), trace) && Current(s.View(), trace, p, q)
      invariant ExactProgress(l, r, start, s.View(), pairs, i)
    {
      ghost var m := s.View();
      InvariantParts(l, r, m);
      RelationEnds(l, r, m, |trace|);
      NextPairFree(l, r, start, m, p, q, pairs, i);
      FreePairParts(l, r, m, p, q, pairs[i]);
      var ok := s.MapEqualSubtree(pairs[i].0, pairs[i].1);
      if ok {
        PairKeepsInvariant(l, r, m, s.View(), p, q, pairs[i]);
        TraceKept(l, r, m, s.View(), trace, p, q, SubtreeSet(l, pairs[i].0), SubtreeSet(r, pairs[i].1));
      }
      ConsistentIsSized(l, r, s.View());
      PairTried(l, r, start, m, s.View(), p, q, pairs, i, ok);
    }
    AllPairsDone(l, r, start, s.View(), p, q, pairs);
  }

  lemma FreePairParts(l: Tree, r: Tree, m: Mapping, p: nat, q: nat, pair: Pair)
    requires WellFormed(l) && WellFormed(r) && FreePair(l, r, m, p, q, pair)
    ensures pair.0 < |l.nodes| && pair.1 < |r.nodes|
  {
  }
}
