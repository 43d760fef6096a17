/** The whole matcher, and what its result conserves. */
module Matcher {
  import opened Wrappers
  import opened Syntax
  import opened Serials
  import opened Claims
  import opened Mappings
  import opened MappingState
  import opened ShapePairs
  import opened ExactChildrenPass
  import opened GlobalAnchors
  import opened Worklist
  import opened Ambiguities
  import opened Origins
  import opened Components
  import opened Changes
  import Sorting
  import Uniqueness
  import Visits
  import StableCore
  import RegionCore

  datatype MatchResult = MatchResult(relations: seq<Relation>, ambiguities: seq<AmbiguityGroup>, changes: seq<Change>)

  predicate RelationLe(x: Relation, y: Relation) {
    x.before <= y.before
  }

  /** The result reports the final mapping m of a completed run that started from the given pair and the globally unique
      ones. */
  ghost predicate Reported(l: Tree, r: Tree, result: MatchResult, m: Mapping, trace: seq<Visits.Visit>) {
    && Completed(l, r, m, trace) && AnchorsOnly(l, r, FirstState(m, trace))
    && result.relations == Sorting.Sort(RelationLe, m.relations)
    && result.ambiguities == Sorting.Sort(GroupLe, GroupsOf(m.relations, trace))
    && Sorting.Sorted(GroupLe, result.ambiguities)
    && Changes.NoRepeats(result.changes) && Sorting.Sorted(ChangeLe, result.changes)
    && forall c :: c in result.changes <==>
                     IsChange(l, r, m, BeforeIds(result.ambiguities), AfterIds(result.ambiguities), c)
  }

  /** The reported changes, by the fields of the trees and of the mapping. */
  ghost predicate ChangesTold(l: Tree, r: Tree, result: MatchResult, m: Mapping)
    requires WellFormed(l) && WellFormed(r)
  {
    forall c :: c in result.changes <==>
                  Tells(l, r, m, BeforeIds(result.ambiguities), AfterIds(result.ambiguities), c)
  }

  lemma GivenPairOnly(l: Tree, r: Tree, m: Mapping)
    requires WellFormed(l) && WellFormed(r) && Consistent(l, r, m) && m.relations == []
    requires forall b: nat :: !Mapped(m, b)
    ensures 0 < |l.nodes| == |m.beforeToAfter| == |m.facts| && 0 < |r.nodes| == |m.afterToBefore|
    ensures var n := WithPair(m, 0, 0, Fact(InputPair, GivenPair)).0;
            Invariant(l, r, n) && ExactBeyondRoot(n) && forall x: nat :: 0 < x ==> !Mapped(n, x)
  {
    NothingMappedAfter(l, r, m);
    WithPairConsistent(l, r, m, 0, 0, Fact(InputPair, GivenPair));
    RootPairAlone(l, r, WithPair(m, 0, 0, Fact(InputPair, GivenPair)).0);
    hide Invariant, Consistent;
  }

  lemma RootPairAlone(l: Tree, r: Tree, n: Mapping)
    requires WellFormed(l) && WellFormed(r) && Consistent(l, r, n) && MappedTo(n, 0, 0)
    requires |n.facts| > 0 && n.facts[0] == Some(Fact(InputPair, GivenPair)) && forall x: nat :: 0 < x ==> !Mapped(n, x)
    ensures Invariant(l, r, n) && ExactBeyondRoot(n)
  {
    hide WellFormed, Records, HasRelation;
    forall x: nat | 0 < x < |n.beforeToAfter| ensures n.beforeToAfter[x].None? {
      assert !Mapped(n, x);
    }
  }

  lemma NothingMappedAfter(l: Tree, r: Tree, m: Mapping)
    requires Consistent(l, r, m) && forall b: nat :: !Mapped(m, b)
    ensures forall a: nat :: a < |r.nodes| ==> m.afterToBefore[a].None?
  {
    forall a: nat | a < |r.nodes| ensures m.afterToBefore[a].None? {
      if m.afterToBefore[a].Some? {
        assert Mapped(m, m.afterToBefore[a].value);
      }
    }
  }

  lemma AnchorsStay(l: Tree, r: Tree, m: Mapping, n: Mapping)
    requires Invariant(l, r, m) && Invariant(l, r, n) && m.relations <= n.relations && AllAnchorsMapped(l, r, m)
    ensures AllAnchorsMapped(l, r, n)
  {
    hide Invariant, WellFormed, IsCandidate, SyntaxEqual, Consistent, MappedTo;
    InvariantParts(l, r, m);
    InvariantParts(l, r, n);
    forall p: Pair | IsCandidate(l, r, p) && p.0 < |l.nodes| && p.1 < |r.nodes| &&
        SyntaxEqual(l, p.0, r, p.1)
      ensures MappedTo(n, p.0, p.1)
    {
      EarlierPairsStay(l, r, m, n, p.0, p.1);
    }
  }

  method MatchTrees(before: Tree, after: Tree)
    returns (result: MatchResult)
    requires WellFormed(before) && WellFormed(after)
    ensures exists m, trace :: Reported(before, after, result, m, trace) && ChangesTold(before, after, result, m) &&
                               (FaithfulDigests(before, after) ==> AllAnchorsMapped(before, after, m))
  {
    hide Invariant, Consistent, WellFormed, TraceHolds, ShapesTraced, AnchorsOnly, Successive, FirstState;
    hide FaithfulDigests, AllAnchorsMapped, ExactBeyondRoot, Tells, ListedBefore;
    hide IsChange, Changes.NoRepeats, Sorting.Sort, Sorting.Sorted, GroupsOf, BeforeIds, AfterIds;
    var s := new MappingState(before, after);
    GivenPairOnly(before, after, s.View());
    var _ := s.MapPair(0, 0, InputPair, GivenPair);
    AddGlobalExactAnchors(s);
    ghost var anchored := s.View();
    var groups, ambiguousBefore, ambiguousAfter;
    ghost var trace;
    groups, ambiguousBefore, ambiguousAfter, trace := AddLocalRelations(s);
    ghost var m := s.View();
    InvariantParts(before, after, m);
    if FaithfulDigests(before, after) {
      AnchorsStay(before, after, anchored, m);
    }
    SortedIds(GroupsOf(m.relations, trace));
    var changes := DeriveChanges(before, after, s.View(), ambiguousBefore, ambiguousAfter);
    s.relations := Sorting.Sort(RelationLe, s.relations);
    result := MatchResult(s.relations, groups, changes);
    assert Reported(before, after, result, m, trace);
  }

  lemma SortedIds(groups: seq<AmbiguityGroup>)
    ensures BeforeIds(Sorting.Sort(GroupLe, groups)) == BeforeIds(groups)
    ensures AfterIds(Sorting.Sort(GroupLe, groups)) == AfterIds(groups)
  {
    hide Sorting.Sort, GroupLe;
    var sorted := Sorting.Sort(GroupLe, groups);
    forall g ensures g in sorted <==> g in groups {
      assert g in sorted <==> g in multiset(sorted);
    }
  }

  // ----- conservation

  lemma GroupMembers(l: Tree, r: Tree, result: MatchResult, m: Mapping, trace: seq<Visits.Visit>)
    requires Reported(l, r, result, m, trace)
    ensures forall b :: b in BeforeIds(result.ambiguities) ==> !Mapped(m, b)
    ensures forall a :: a in AfterIds(result.ambiguities) ==> !AfterMapped(m, a)
  {
    hide Invariant, TraceHolds, ShapesTraced, IsChange, Sorting.Sort;
    hide GroupsOf, Changes.NoRepeats, Sorting.Sorted, WellFormed;
    SortedIds(GroupsOf(m.relations, trace));
    forall b | b in BeforeIds(result.ambiguities) ensures !Mapped(m, b) {
      var g :| g in GroupsOf(m.relations, trace) && b in g.before;
      AmbiguousStayFree(l, r, m, trace, g);
    }
    forall a | a in AfterIds(result.ambiguities) ensures !AfterMapped(m, a) {
      var g :| g in GroupsOf(m.relations, trace) && a in g.after;
      AmbiguousStayFree(l, r, m, trace, g);
    }
  }

  /** Just below a mapped node, a before node is mapped, ambiguous or deleted: exactly one of the three. */
  lemma BeforeConserved(l: Tree, r: Tree, result: MatchResult, m: Mapping, trace: seq<Visits.Visit>, b: nat)
    requires Reported(l, r, result, m, trace) && 0 < b < |l.nodes| && WellFormed(l) && Mapped(m, Parent(l, b))
    ensures Mapped(m, b) || b in BeforeIds(result.ambiguities) || Change(Delete, Some(b), None) in result.changes
    ensures !(Mapped(m, b) && b in BeforeIds(result.ambiguities))
    ensures Change(Delete, Some(b), None) in result.changes ==> !Mapped(m, b) && b !in BeforeIds(result.ambiguities)
  {
    hide Invariant, WellFormed, TraceHolds, ShapesTraced, Sorting.Sort, BeforeIds, AfterIds, GroupsOf;
    GroupMembers(l, r, result, m, trace);
    ResultTrees(l, r, result, m, trace);
    assert Change(Delete, Some(b), None) in result.changes <==>
           IsDelete(l, m, BeforeIds(result.ambiguities), Change(Delete, Some(b), None));
  }

  lemma AfterConserved(l: Tree, r: Tree, result: MatchResult, m: Mapping, trace: seq<Visits.Visit>, a: nat)
    requires Reported(l, r, result, m, trace) && 0 < a < |r.nodes| && WellFormed(r) && AfterMapped(m, Parent(r, a))
    ensures AfterMapped(m, a) || a in AfterIds(result.ambiguities) || Change(Insert, None, Some(a)) in result.changes
    ensures !(AfterMapped(m, a) && a in AfterIds(result.ambiguities))
    ensures Change(Insert, None, Some(a)) in result.changes ==> !AfterMapped(m, a) && a !in AfterIds(result.ambiguities)
  {
    hide Invariant, WellFormed, TraceHolds, ShapesTraced, Sorting.Sort, BeforeIds, AfterIds, GroupsOf;
    GroupMembers(l, r, result, m, trace);
    ResultTrees(l, r, result, m, trace);
    assert Change(Insert, None, Some(a)) in result.changes <==>
           IsInsert(r, m, AfterIds(result.ambiguities), Change(Insert, None, Some(a)));
  }

  lemma ResultTrees(l: Tree, r: Tree, result: MatchResult, m: Mapping, trace: seq<Visits.Visit>)
    requires Reported(l, r, result, m, trace)
    ensures WellFormed(l) && WellFormed(r) && Invariant(l, r, m) && Consistent(l, r, m) && Sized(l, r, m)
    ensures MappedTo(m, 0, 0) && AfterMapped(m, 0) && |l.nodes| > 0 && |r.nodes| > 0
  {
    hide IsChange, GroupsOf, Sorting.Sort, BeforeIds, AfterIds, TraceHolds, ShapesTraced;
  }

  /** Walking up from an unmapped node, the last unmapped one hangs below a mapped node. */
  lemma {:induction false} TopUnmapped(l: Tree, m: Mapping, b: nat) returns (x: nat)
    requires WellFormed(l) && Mapped(m, 0) && b < |l.nodes| && !Mapped(m, b)
    ensures 0 < x <= b && InSubtree(l, x, b) && !Mapped(m, x) && Mapped(m, Parent(l, x))
    ensures forall y: nat :: InSubtree(l, x, y) && InSubtree(l, y, b) ==> !Mapped(m, y)
    decreases b
  {
    var p := Parent(l, b);
    if Mapped(m, p) {
      x := b;
      forall y: nat | InSubtree(l, x, y) && InSubtree(l, y, b) ensures y == b {
        SubtreeStartsAtRoot(l, b, y);
        SubtreeStartsAtRoot(l, y, b);
      }
    } else {
      x := TopUnmapped(l, m, p);
    }
  }

  lemma {:induction false} TopUnmappedAfter(r: Tree, m: Mapping, a: nat) returns (x: nat)
    requires WellFormed(r) && AfterMapped(m, 0) && a < |r.nodes| && !AfterMapped(m, a)
    ensures 0 < x <= a && InSubtree(r, x, a) && !AfterMapped(m, x) && AfterMapped(m, Parent(r, x))
    ensures forall y: nat :: InSubtree(r, x, y) && InSubtree(r, y, a) ==> !AfterMapped(m, y)
    decreases a
  {
    var p := Parent(r, a);
    if AfterMapped(m, p) {
      x := a;
      forall y: nat | InSubtree(r, x, y) && InSubtree(r, y, a) ensures y == a {
        SubtreeStartsAtRoot(r, a, y);
        SubtreeStartsAtRoot(r, y, a);
      }
    } else {
      x := TopUnmappedAfter(r, m, p);
    }
  }

  /** Nothing vanishes: an unmapped before node lies in a subtree whose root is deleted or ambiguous, and that root is
      the child of its nearest mapped ancestor. */
  lemma UnmappedAccounted(l: Tree, r: Tree, result: MatchResult, m: Mapping, trace: seq<Visits.Visit>, b: nat)
    returns (x: nat)
    requires Reported(l, r, result, m, trace) && b < |l.nodes| && !Mapped(m, b)
    ensures WellFormed(l) && 0 < x < |l.nodes| && InSubtree(l, x, b) && Mapped(m, Parent(l, x))
    ensures forall y: nat :: InSubtree(l, x, y) && InSubtree(l, y, b) ==> !Mapped(m, y)
    ensures x in BeforeIds(result.ambiguities) || Change(Delete, Some(x), None) in result.changes
  {
    hide Reported, WellFormed, Invariant;
    ResultTrees(l, r, result, m, trace);
    x := TopUnmapped(l, m, b);
    BeforeConserved(l, r, result, m, trace, x);
    assert InSubtree(l, x, x);
  }

  lemma UnmappedAfterAccounted(l: Tree, r: Tree, result: MatchResult, m: Mapping, trace: seq<Visits.Visit>, a: nat)
    returns (x: nat)
    requires Reported(l, r, result, m, trace) && a < |r.nodes| && !AfterMapped(m, a)
    ensures WellFormed(r) && 0 < x < |r.nodes| && InSubtree(r, x, a) && AfterMapped(m, Parent(r, x))
    ensures forall y: nat :: InSubtree(r, x, y) && InSubtree(r, y, a) ==> !AfterMapped(m, y)
    ensures x in AfterIds(result.ambiguities) || Change(Insert, None, Some(x)) in result.changes
  {
    hide Reported, WellFormed, Invariant;
    ResultTrees(l, r, result, m, trace);
    x := TopUnmappedAfter(r, m, a);
    AfterConserved(l, r, result, m, trace, x);
    assert InSubtree(r, x, x);
  }

  // ----- which pairs the change list speaks about

  /** Relocations are reported for exactly the children of the root that are exactly mapped to something that is not a
      child of the root; deeper exact pairs never leave the counterpart of their parent. */
  lemma RelocationsAreTopLevel(l: Tree, r: Tree, result: MatchResult, m: Mapping, trace: seq<Visits.Visit>, b: nat,
                               a: nat)
    requires Reported(l, r, result, m, trace) && 0 < b < |l.nodes| && a < |r.nodes| && WellFormed(l) && WellFormed(r)
    ensures Change(EquivalentRelocation, Some(b), Some(a)) in result.changes <==>
            MappedTo(m, b, a) && Exact(m, b) && Parent(l, b) == 0 && a != 0 && Parent(r, a) != 0
  {
    hide Sorting.Sort, BeforeIds, AfterIds, GroupsOf, TraceHolds, ShapesTraced, SyntaxEqual;
    hide Successive, AnchorsOnly, FirstState, Changes.NoRepeats, Sorting.Sorted, Completed, InSubtree, ExactBelow;
    hide ShapeAbove, Sound;
    ResultTrees(l, r, result, m, trace);
    var c := Change(EquivalentRelocation, Some(b), Some(a));
    assert c in result.changes <==> IsNodeChange(l, r, m, c);
    if MappedTo(m, b, a) && Parent(l, b) != 0 && Mapped(m, Parent(l, b)) {
      assert StaysBelow(l, r, m, b);
    }
  }

  lemma TopUpdate(l: Tree, r: Tree, result: MatchResult, m: Mapping, trace: seq<Visits.Visit>, b: nat, a: nat)
    requires Reported(l, r, result, m, trace) && 0 < b < |l.nodes| && a < |r.nodes| && WellFormed(l) && WellFormed(r)
    ensures Change(ModelForcedUpdate, Some(b), Some(a)) in result.changes <==>
            MappedTo(m, b, a) && ByShape(m, b) && Parent(l, b) == 0 && !SyntaxEqual(l, b, r, a)
  {
    hide Sorting.Sort, BeforeIds, AfterIds, GroupsOf, TraceHolds, ShapesTraced, SyntaxEqual, ChildrenStay, ExactBelow;
    hide Successive, AnchorsOnly, FirstState, Changes.NoRepeats, Sorting.Sorted, Completed, InSubtree;
    ResultTrees(l, r, result, m, trace);
    var c := Change(ModelForcedUpdate, Some(b), Some(a));
    assert c in result.changes <==> IsNodeChange(l, r, m, c);
    if MappedTo(m, b, a) && ByShape(m, b) {
      ShapeParent(l, r, m, b);
    }
  }

  /** Updates are reported for exactly the children of the root that are mapped by shape but do not read alike. */
  lemma UpdatesAreTopLevel(l: Tree, r: Tree, result: MatchResult, m: Mapping, trace: seq<Visits.Visit>, b: nat, a: nat)
    requires Reported(l, r, result, m, trace) && 0 < b < |l.nodes| && a < |r.nodes| && WellFormed(l) && WellFormed(r)
    ensures Change(ModelForcedUpdate, Some(b), Some(a)) in result.changes <==>
            MappedTo(m, b, a) && ByShape(m, b) && Parent(l, b) == 0 && !SameSerial(l, r, Verbatim, b, a)
  {
    hide Reported, SameSerial, SyntaxEqual, WellFormed;
    TopUpdate(l, r, result, m, trace, b, a);
    SyntaxExactly(l, b, r, a);
  }

  /** Formatting only is reported exactly when the two files read alike, mark for mark and leaf for leaf, and differ in
      their bytes. */
  lemma FormattingReported(l: Tree, r: Tree, result: MatchResult, m: Mapping, trace: seq<Visits.Visit>)
    requires Reported(l, r, result, m, trace) && WellFormed(l) && WellFormed(r)
    ensures |l.nodes| > 0 && |r.nodes| > 0
    ensures Change(FormattingOnly, Some(0), Some(0)) in result.changes <==>
            SameSerial(l, r, Verbatim, 0, 0) && l.source != r.source
  {
    hide Sorting.Sort, BeforeIds, AfterIds, GroupsOf, TraceHolds, ShapesTraced, SyntaxEqual, ChildrenStay, ExactBelow;
    hide Successive, AnchorsOnly, FirstState, Changes.NoRepeats, Sorting.Sorted, Completed, InSubtree, SameSerial;
    ResultTrees(l, r, result, m, trace);
    SyntaxExactly(l, 0, r, 0);
    var c := Change(FormattingOnly, Some(0), Some(0));
    assert c in result.changes <==> IsFormattingOnly(l, r, c);
  }

  /** Every reported relation is true of the files. */
  lemma ReportedTruthful(l: Tree, r: Tree, result: MatchResult, m: Mapping, trace: seq<Visits.Visit>, k: nat)
    requires Reported(l, r, result, m, trace) && k < |result.relations| && WellFormed(l) && WellFormed(r)
    ensures result.relations[k].before < |l.nodes| && result.relations[k].after < |r.nodes|
    ensures Truthful(l, r, result.relations[k].before, result.relations[k].after, result.relations[k].fact)
  {
    hide IsChange, BeforeIds, AfterIds, GroupsOf, TraceHolds, ShapesTraced, Sorting.Sort, AnchorsOnly, Successive;
    hide Truthful, Invariant, Consistent, Sorting.Sorted, Changes.NoRepeats;
    ResultTrees(l, r, result, m, trace);
    RelationsTruthful(l, r, m);
    assert result.relations[k] in multiset(m.relations);
    var j :| 0 <= j < |m.relations| && m.relations[j] == result.relations[k];
  }

  ghost predicate GroupListed(g: AmbiguityGroup, h: AmbiguityGroup) {
    || g.parentBefore < h.parentBefore
    || (g.parentBefore == h.parentBefore &&
        (|| g.parentAfter < h.parentAfter
         || (g.parentAfter == h.parentAfter && g.before != [] && h.before != [] && g.before[0] <= h.before[0])))
  }

  /** The reported groups are exactly the ambiguities of the solved regions, by increasing parents and first members. */
  lemma GroupsReported(l: Tree, r: Tree, result: MatchResult, m: Mapping, trace: seq<Visits.Visit>)
    requires Reported(l, r, result, m, trace)
    ensures forall g :: g in result.ambiguities <==>
              exists i :: 0 <= i < |trace| && i < |m.relations| && OfRound(m.relations[i], trace[i], g)
    ensures forall g :: g in result.ambiguities ==> g.before != [] && g.after != []
    ensures forall j, k :: 0 <= j < k < |result.ambiguities| ==>
              GroupListed(result.ambiguities[j], result.ambiguities[k])
  {
    hide Reported, OfRound, TraceHolds, GroupsOf, GroupLe;
    ReportedGroups(l, r, result, m, trace);
    NonEmptyGroups(l, r, m, trace);
    forall g
      ensures g in result.ambiguities <==>
              exists i :: 0 <= i < |trace| && i < |m.relations| && OfRound(m.relations[i], trace[i], g)
    {
      GroupsExactly(m.relations, trace, g);
    }
    forall j, k | 0 <= j < k < |result.ambiguities|
      ensures GroupListed(result.ambiguities[j], result.ambiguities[k])
    {
      assert result.ambiguities[j] in result.ambiguities && result.ambiguities[k] in result.ambiguities;
      assert GroupLe(result.ambiguities[j], result.ambiguities[k]);
      GroupLeListed(result.ambiguities[j], result.ambiguities[k]);
    }
  }

  lemma GroupLeListed(g: AmbiguityGroup, h: AmbiguityGroup)
    requires GroupLe(g, h) && g.before != [] && h.before != []
    ensures GroupListed(g, h)
  {
  }

  lemma ReportedGroups(l: Tree, r: Tree, result: MatchResult, m: Mapping, trace: seq<Visits.Visit>)
    requires Reported(l, r, result, m, trace)
    ensures Consistent(l, r, m) && TraceHolds(l, r, m, trace) && |trace| <= |m.relations|
    ensures forall g :: g in result.ambiguities <==> g in GroupsOf(m.relations, trace)
    ensures forall j, k :: 0 <= j < k < |result.ambiguities| ==> GroupLe(result.ambiguities[j], result.ambiguities[k])
  {
    hide IsChange, BeforeIds, AfterIds, ShapesTraced, Sorting.Sort, AnchorsOnly, Successive, Invariant, Consistent;
    hide GroupsOf, Changes.NoRepeats, TraceHolds, GroupLe;
    ResultTrees(l, r, result, m, trace);
    var groups := GroupsOf(m.relations, trace);
    forall g ensures g in result.ambiguities <==> g in groups {
      assert g in result.ambiguities <==> g in multiset(groups);
    }
  }

  lemma NonEmptyGroups(l: Tree, r: Tree, m: Mapping, trace: seq<Visits.Visit>)
    requires Consistent(l, r, m) && TraceHolds(l, r, m, trace)
    ensures forall g :: g in GroupsOf(m.relations, trace) ==> g.before != [] && g.after != []
  {
    hide GroupsOf, Consistent, Visits.VisitHolds, FromVisit;
    AllGroups(l, r, m, trace);
    forall g | g in GroupsOf(m.relations, trace) ensures g.before != [] && g.after != [] {
      var i :| 0 <= i < |trace| && i < |m.relations| && Finished(l, r, m, m.relations[i], trace[i]) &&
               FromVisit(l, r, m, m.relations[i].before, m.relations[i].after, trace[i], g);
      VisitGroup(l, r, m, m.relations[i], trace[i], g);
    }
  }

  /** A shape pair hangs below the given pair or below another shape pair. */
  lemma ShapeParent(l: Tree, r: Tree, m: Mapping, b: nat)
    requires Invariant(l, r, m) && 0 < b < |l.nodes| && Mapped(m, b) && ByShape(m, b)
    ensures Mapped(m, Parent(l, b)) && (Parent(l, b) == 0 <==> !ByShape(m, Parent(l, b)))
  {
    hide ChildrenStay, ExactBelow, ClaimHolds;
    InvariantParts(l, r, m);
    assert !Exact(m, b);
    assert MappedTo(m, Parent(l, b), Parent(r, m.beforeToAfter[b].value)) && !Exact(m, Parent(l, b));
  }

  /** Every shape pair lies below a shape pair that is a child of the root, so no update goes without its top. */
  lemma {:induction false} ShapeTop(l: Tree, r: Tree, m: Mapping, b: nat) returns (x: nat)
    requires Invariant(l, r, m) && 0 < b < |l.nodes| && Mapped(m, b) && ByShape(m, b)
    ensures 0 < x < |l.nodes| && InSubtree(l, x, b) && Mapped(m, x) && ByShape(m, x) && Parent(l, x) == 0
    decreases b
  {
    ShapeParent(l, r, m, b);
    if Parent(l, b) == 0 {
      x := b;
    } else {
      x := ShapeTop(l, r, m, Parent(l, b));
    }
  }

  /** The matcher forces or abstains; it never reports a suggestion. */
  lemma NothingSuggested(l: Tree, r: Tree, result: MatchResult, m: Mapping, trace: seq<Visits.Visit>)
    requires Reported(l, r, result, m, trace)
    ensures forall c :: c in result.changes ==> c.kind != SuggestedUpdate
    ensures forall k :: 0 <= k < |result.relations| ==> result.relations[k].fact.correspondence != Suggested
  {
    hide BeforeIds, AfterIds, GroupsOf, TraceHolds, ShapesTraced, SyntaxEqual, ChildrenStay, ExactBelow;
    hide ShapeAbove, Sorting.Sort, Sorting.Sorted, ClaimHolds, OutOfOrder;
    ResultTrees(l, r, result, m, trace);
    forall k | 0 <= k < |result.relations| ensures result.relations[k].fact.correspondence != Suggested {
      assert result.relations[k] in multiset(m.relations);
      var j :| 0 <= j < |m.relations| && m.relations[j] == result.relations[k];
      assert Records(m, m.relations[j]);
    }
  }

  /** The reported relations are the mapping: one per mapped before node, in increasing order. */
  lemma RelationsAreTheMapping(l: Tree, r: Tree, result: MatchResult, m: Mapping, trace: seq<Visits.Visit>)
    requires Reported(l, r, result, m, trace)
    ensures forall j, k :: 0 <= j < k < |result.relations| ==> result.relations[j].before < result.relations[k].before
    ensures forall b: nat, a: nat :: MappedTo(m, b, a) <==>
              exists k :: 0 <= k < |result.relations| && result.relations[k].before == b &&
                  result.relations[k].after == a
  {
    hide Invariant, IsChange, BeforeIds, AfterIds, GroupsOf, TraceHolds, ShapesTraced, Sorting.Sort;
    hide Successive, AnchorsOnly, FirstState, Changes.NoRepeats, Sorting.Sorted;
    ResultTrees(l, r, result, m, trace);
    RelationsDistinct(l, r, m, result.relations);
    forall b: nat, a: nat
      ensures MappedTo(m, b, a) <==>
              exists k :: 0 <= k < |result.relations| && result.relations[k].before == b &&
                  result.relations[k].after == a
    {
      RelationOf(l, r, m, result.relations, b, a);
    }
  }

  lemma RelationOf(l: Tree, r: Tree, m: Mapping, relations: seq<Relation>, b: nat, a: nat)
    requires Consistent(l, r, m) && multiset(relations) == multiset(m.relations)
    ensures MappedTo(m, b, a) <==>
            exists k :: 0 <= k < |relations| && relations[k].before == b && relations[k].after == a
  {
    if MappedTo(m, b, a) {
      assert HasRelation(m, b);
      var j :| 0 <= j < |m.relations| && m.relations[j].before == b;
      assert Records(m, m.relations[j]);
      assert m.relations[j] in multiset(relations);
      var k :| 0 <= k < |relations| && relations[k] == m.relations[j];
    }
    if k :| 0 <= k < |relations| && relations[k].before == b && relations[k].after == a {
      assert relations[k] in multiset(m.relations);
      var j :| 0 <= j < |m.relations| && m.relations[j] == relations[k];
      assert Records(m, m.relations[j]);
    }
  }

  lemma ReportedRelation(l: Tree, r: Tree, result: MatchResult, m: Mapping, trace: seq<Visits.Visit>, k: nat)
    requires Reported(l, r, result, m, trace) && k < |result.relations|
    ensures Records(m, result.relations[k])
  {
    hide IsChange, BeforeIds, AfterIds, GroupsOf, TraceHolds, ShapesTraced, Sorting.Sort, AnchorsOnly, Successive;
    ResultTrees(l, r, result, m, trace);
    assert result.relations[k] in multiset(m.relations);
    var j :| 0 <= j < |m.relations| && m.relations[j] == result.relations[k];
    assert Records(m, m.relations[j]);
  }

  /** A relation reported as identical lies, by position, at or below a pair that is unique in both files, or unique
      among the unmapped children of a mapped pair when its round began. */
  lemma ExactRelationOrigin(l: Tree, r: Tree, result: MatchResult, m: Mapping, trace: seq<Visits.Visit>, k: nat)
    requires Reported(l, r, result, m, trace) && k < |result.relations| && IsExact(Some(result.relations[k].fact))
    ensures WellFormed(l) && WellFormed(r)
    ensures var relation := result.relations[k];
            AnchoredBySome(l, r, m, relation.before) ||
            exists i :: 0 <= i < |trace| && i < |m.relations| &&
                        UniqueIn(l, r, m.relations[i], trace[i], relation.before, relation.after)
  {
    hide IsChange, BeforeIds, AfterIds, GroupsOf, TraceHolds, ShapesTraced, Sorting.Sort, AnchorsOnly, Successive;
    hide UniqueIn, AnchoredBySome, ChildrenStay, ExactBelow, ShapeAbove;
    ResultTrees(l, r, result, m, trace);
    ReportedRelation(l, r, result, m, trace, k);
    ExactOrigin(l, r, m, trace, result.relations[k].before);
  }

  /** A relation reported as equal in shape is in every maximum ordered alignment of its region, in the mapping the
      region was solved against. */
  lemma ShapeRelationForced(l: Tree, r: Tree, result: MatchResult, m: Mapping, trace: seq<Visits.Visit>, k: nat)
    returns (i: nat, n: nat)
    requires Reported(l, r, result, m, trace) && k < |result.relations| && result.relations[k].before > 0
    requires !IsExact(Some(result.relations[k].fact))
    ensures i < |trace| && n < |trace[i].solved| && n < |trace[i].regions|
    ensures PairInEvery(l, r, trace[i].solved[n].now, trace[i].regions[n].before, trace[i].regions[n].after,
                        result.relations[k].before, result.relations[k].after)
  {
    hide IsChange, BeforeIds, AfterIds, GroupsOf, Sorting.Sort, AnchorsOnly, Successive, Invariant, PairInEvery;
    hide TraceHolds, Worklist.ForcedIn;
    ReportedRelation(l, r, result, m, trace, k);
    var b, a := result.relations[k].before, result.relations[k].after;
    assert Worklist.ForcedSomewhere(trace, b, a);
    i :| 0 <= i < |trace| && Worklist.ForcedIn(trace[i], b, a);
    n := RoundForced(l, r, m, trace, i, b, a);
  }

  lemma RoundForced(l: Tree, r: Tree, m: Mapping, trace: seq<Visits.Visit>, i: nat, b: nat, a: nat) returns (n: nat)
    requires TraceHolds(l, r, m, trace) && i < |trace| && Worklist.ForcedIn(trace[i], b, a)
    ensures n < |trace[i].solved| && n < |trace[i].regions|
    ensures PairInEvery(l, r, trace[i].solved[n].now, trace[i].regions[n].before, trace[i].regions[n].after, b, a)
  {
    hide PairInEvery, PairInSome, WellFormed, StableCore.NoRepeats, RegionCore.Explains, RegionCore.GoodAmbiguity;
    hide Visits.ExactChildrenDone, Visits.InSequence, Visits.Snapshot;
    n :| 0 <= n < |trace[i].solved| && (b, a) in trace[i].solved[n].outcome.forced;
    assert Finished(l, r, m, m.relations[i], trace[i]);
    assert Visits.SolvedHolds(l, r, m, trace[i].regions[n], trace[i].solved[n]);
  }

  /** A reported group with an exact constraint encodes precisely the maximum ordered alignments of its component, in
      the mapping its region was solved against. */
  lemma ReportedGroupEncodes(l: Tree, r: Tree, result: MatchResult, m: Mapping, trace: seq<Visits.Visit>,
                             g: AmbiguityGroup)
    returns (i: nat, n: nat, d: RegionCore.Division, c: Component)
    requires Reported(l, r, result, m, trace) && g in result.ambiguities && g.constraint.ExactOrderedAlignment?
    ensures i < |trace| && i < |m.relations| && EncodedIn(l, r, m.relations[i], trace[i], n, d, c, g)
  {
    hide IsChange, BeforeIds, AfterIds, GroupsOf, Sorting.Sort, Sorting.Sorted, AnchorsOnly, Completed, EncodedIn;
    assert g in multiset(result.ambiguities);
    i, n, d, c := ExactGroupEncodes(l, r, m, trace, g);
  }

  function BeforeOf(relation: Relation): nat {
    relation.before
  }

  lemma RelationsDistinct(l: Tree, r: Tree, m: Mapping, relations: seq<Relation>)
    requires Consistent(l, r, m) && relations == Sorting.Sort(RelationLe, m.relations)
    ensures forall j, k :: 0 <= j < k < |relations| ==> relations[j].before < relations[k].before
  {
    hide Sorting.Sort;
    Sorting.SortSorted(RelationLe, m.relations);
    assert Uniqueness.Apart(BeforeOf, m.relations);
    Sorting.SortMembers(RelationLe, BeforeOf, m.relations);
    forall j, k | 0 <= j < k < |relations| ensures relations[j].before < relations[k].before {
      assert RelationLe(relations[j], relations[k]) && BeforeOf(relations[j]) != BeforeOf(relations[k]);
    }
  }
}
