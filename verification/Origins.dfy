/** Where the exact pairs of a completed run come from. */
module Origins {
  import opened Wrappers
  import opened Syntax
  import opened Mappings
  import MappingState
  import Regions
  import opened ShapePairs
  import opened Visits
  import opened ExactChildrenPass
  import opened GlobalAnchors
  import opened Worklist

  /** The round found a unique pair of children, and (b, a) lies at or below it, by position. */
  ghost predicate UniqueIn(l: Tree, r: Tree, relation: Relation, v: Visit, b: nat, a: nat) {
    && WellFormed(l) && WellFormed(r) && Sized(l, r, v.start)
    && relation.before < |l.nodes| && relation.after < |r.nodes|
    && exists p: Pair ::
         UniqueChildPair(l, r, v.start, Children(l, relation.before), Children(r, relation.after), p) &&
         IsoPair(l, r, p.0, p.1, b, a)
  }

  /** Both mappings hold the same exact pair for b. */
  ghost predicate SameExact(m: Mapping, n: Mapping, b: nat) {
    Mapped(m, b) && Mapped(n, b) && Exact(m, b) && Exact(n, b) && m.beforeToAfter[b] == n.beforeToAfter[b]
  }

  lemma PairAddsNoExact(m: Mapping, b: nat, a: nat, x: nat)
    requires b < |m.beforeToAfter| == |m.facts| && a < |m.afterToBefore|
    requires Mapped(WithPair(m, b, a, SHAPE_FACT).0, x) && Exact(WithPair(m, b, a, SHAPE_FACT).0, x)
    ensures SameExact(m, WithPair(m, b, a, SHAPE_FACT).0, x)
  {
  }

  lemma {:induction false} ShapesAddNoExact(m: Mapping, pairs: seq<Pair>, b: nat)
    requires Mapped(WithShapes(m, pairs), b) && Exact(WithShapes(m, pairs), b)
    ensures SameExact(m, WithShapes(m, pairs), b)
    decreases |pairs|
  {
    if pairs != [] {
      var n := WithShapes(m, pairs[..|pairs| - 1]);
      var p := pairs[|pairs| - 1];
      if p.0 < |n.beforeToAfter| == |n.facts| && p.1 < |n.afterToBefore| {
        PairAddsNoExact(n, p.0, p.1, b);
      }
      ShapesAddNoExact(m, pairs[..|pairs| - 1], b);
    }
  }

  lemma {:induction false} RegionsAddNoExact(v: Visit, k: nat, b: nat)
    requires InSequence(v) && k <= |v.solved| && Mapped(StateAt(v, k), b) && Exact(StateAt(v, k), b)
    ensures SameExact(v.split, StateAt(v, k), b)
    decreases k
  {
    hide WithShapes;
    if k > 0 {
      ShapesAddNoExact(v.solved[k - 1].now, v.solved[k - 1].outcome.forced, b);
      assert v.solved[k - 1].now == StateAt(v, k - 1);
      RegionsAddNoExact(v, k - 1, b);
    }
  }

  /** An exact pair at the end of a round was there at its start, or the round took it from a unique pair of
      children. */
  lemma RoundOrigin(l: Tree, r: Tree, m: Mapping, relation: Relation, v: Visit, b: nat)
    requires VisitHolds(l, r, m, relation, v) && Mapped(EndOf(v), b) && Exact(EndOf(v), b)
    ensures SameExact(v.start, EndOf(v), b) || UniqueIn(l, r, relation, v, b, EndOf(v).beforeToAfter[b].value)
  {
    hide WellFormed, SolvedHolds, Regions.AreBarriers, Regions.SplitAt, WithShapes, Consistent, IsoPair;
    hide UniqueChildPair;
    RegionsAddNoExact(v, |v.solved|, b);
    MappingState.ConsistentIsSized(l, r, v.start);
    if Mapped(v.start, b) {
      EarlierPairsStay(l, r, v.start, v.split, b, v.start.beforeToAfter[b].value);
    } else {
      assert FromUniqueChild(l, r, v.start, v.split, Children(l, relation.before), Children(r, relation.after), b);
    }
  }

  /** The mapping after the first n rounds. */
  ghost function Reached(m: Mapping, trace: seq<Visit>, n: nat): Mapping
    requires n <= |trace|
  {
    if n == 0 then FirstState(m, trace) else EndOf(trace[n - 1])
  }

  lemma {:induction false} TraceOrigin(l: Tree, r: Tree, m: Mapping, trace: seq<Visit>, n: nat, b: nat)
    requires TraceHolds(l, r, m, trace) && Successive(m, trace) && n <= |trace|
    requires Mapped(Reached(m, trace, n), b) && Exact(Reached(m, trace, n), b)
    ensures SameExact(FirstState(m, trace), Reached(m, trace, n), b) ||
            exists i :: 0 <= i < n && UniqueIn(l, r, m.relations[i], trace[i], b,
                                               Reached(m, trace, n).beforeToAfter[b].value)
    decreases n
  {
    hide VisitHolds, EndOf, UniqueIn;
    if n > 0 {
      assert Finished(l, r, m, m.relations[n - 1], trace[n - 1]);
      RoundOrigin(l, r, m, m.relations[n - 1], trace[n - 1], b);
      if SameExact(trace[n - 1].start, EndOf(trace[n - 1]), b) {
        assert trace[n - 1].start == Reached(m, trace, n - 1);
        TraceOrigin(l, r, m, trace, n - 1, b);
      }
    }
  }

  lemma FirstIsEarlier(l: Tree, r: Tree, m: Mapping, trace: seq<Visit>)
    requires Completed(l, r, m, trace)
    ensures Consistent(l, r, m) && Consistent(l, r, FirstState(m, trace)) &&
            FirstState(m, trace).relations <= m.relations
  {
    hide WellFormed, SolvedHolds, ExactChildrenDone, Regions.AreBarriers, Regions.SplitAt, Invariant, Consistent;
    InvariantParts(l, r, m);
    if trace != [] {
      assert Finished(l, r, m, m.relations[0], trace[0]);
      assert trace[0].start.relations <= trace[0].split.relations <= m.relations;
    }
  }

  /** No exact pair is a guess: each lies, by position, at or below a pair that is unique in both files, or a pair of
      children that was unique among the unmapped children of a mapped pair when its round began. */
  lemma ExactOrigin(l: Tree, r: Tree, m: Mapping, trace: seq<Visit>, b: nat)
    requires Completed(l, r, m, trace) && WellFormed(l) && WellFormed(r) && AnchorsOnly(l, r, FirstState(m, trace))
    requires 0 < b && Mapped(m, b) && Exact(m, b)
    ensures AnchoredBySome(l, r, m, b) ||
            exists i :: 0 <= i < |trace| && i < |m.relations| &&
                        UniqueIn(l, r, m.relations[i], trace[i], b, m.beforeToAfter[b].value)
  {
    hide WellFormed, Invariant, TraceHolds, Successive, UniqueIn, Consistent, IsCandidate, IsoPair;
    var first := FirstState(m, trace);
    LastIsReached(l, r, m, trace);
    TraceOrigin(l, r, m, trace, |trace|, b);
    if SameExact(first, m, b) {
      FirstIsEarlier(l, r, m, trace);
      assert AnchoredBySome(l, r, first, b);
      var p :| IsCandidate(l, r, p) && AnchoredBy(l, r, first, p, b);
      EarlierPairsStay(l, r, first, m, p.0, p.1);
      assert AnchoredBy(l, r, m, p, b);
    }
  }

  lemma LastIsReached(l: Tree, r: Tree, m: Mapping, trace: seq<Visit>)
    requires Completed(l, r, m, trace)
    ensures Reached(m, trace, |trace|) == m && |trace| == |m.relations|
  {
    hide Invariant, TraceHolds, ShapesTraced, Consistent, WellFormed, SolvedHolds, ExactChildrenDone;
  }
}
