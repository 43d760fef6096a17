/** The mutable mapping state: recording one pair, and mapping a whole pair of equal subtrees. */
module MappingState {
  import opened Wrappers
  import opened Syntax
  import opened Mappings

  // ----- what mapping an equal subtree does to the mapping

  /** Nothing mapped is lost or changed, and every new pair is an exact pair on an isomorphic path from (b, a). */
  ghost predicate GrownBy(l: Tree, r: Tree, m: Mapping, n: Mapping, b: nat, a: nat)
    requires WellFormed(l) && WellFormed(r) && Sized(l, r, m) && Sized(l, r, n)
  {
    && m.relations <= n.relations
    && (forall x: nat :: x < |l.nodes| && Mapped(m, x) ==>
                           n.beforeToAfter[x] == m.beforeToAfter[x] && n.facts[x] == m.facts[x])
    && (forall x: nat :: x < |l.nodes| && Mapped(n, x) && !Mapped(m, x) ==> NewlyExact(l, r, n, b, a, x))
  }

  ghost predicate NewlyExact(l: Tree, r: Tree, n: Mapping, b: nat, a: nat, x: nat)
    requires WellFormed(l) && WellFormed(r) && Sized(l, r, n)
  {
    && Mapped(n, x) && IsoPair(l, r, b, a, x, n.beforeToAfter[x].value) && Exact(n, x)
    && ClaimHolds(l, r, x, n.beforeToAfter[x].value, n.facts[x])
  }

  /** Every isomorphic pair below (b, a) is mapped to its counterpart. */
  ghost predicate AllIsoMapped(l: Tree, r: Tree, n: Mapping, b: nat, a: nat)
    requires WellFormed(l) && WellFormed(r)
  {
    forall x: nat, y: nat :: IsoPair(l, r, b, a, x, y) ==> MappedTo(n, x, y)
  }

  lemma GrowthComposes(l: Tree, r: Tree, m: Mapping, n: Mapping, o: Mapping, b: nat, a: nat, c: nat, d: nat)
    requires WellFormed(l) && WellFormed(r) && Sized(l, r, m) && Sized(l, r, n) && Sized(l, r, o)
    requires GrownBy(l, r, m, n, b, a) && GrownBy(l, r, n, o, c, d) && IsoPair(l, r, b, a, c, d)
    ensures GrownBy(l, r, m, o, b, a)
  {
    forall x: nat | x < |l.nodes| && Mapped(o, x) && !Mapped(m, x) ensures NewlyExact(l, r, o, b, a, x) {
      if Mapped(n, x) {
        assert NewlyExact(l, r, n, b, a, x);
      } else {
        assert NewlyExact(l, r, o, c, d, x);
        IsoPairTrans(l, r, b, a, c, d, x, o.beforeToAfter[x].value);
      }
    }
  }

  /** Growth below (c, d) does not touch what lies below a disjoint pair (e, f). */
  lemma GrowthElsewhere(l: Tree, r: Tree, m: Mapping, n: Mapping, c: nat, d: nat, e: nat, f: nat)
    requires WellFormed(l) && WellFormed(r) && Consistent(l, r, m) && Consistent(l, r, n)
    requires GrownBy(l, r, m, n, c, d)
    requires forall x: nat :: InSubtree(l, c, x) ==> !InSubtree(l, e, x)
    requires forall y: nat :: InSubtree(r, d, y) ==> !InSubtree(r, f, y)
    ensures AgreeBelow(l, r, m, n, e, f)
  {
    forall x: nat | InSubtree(l, e, x) ensures m.beforeToAfter[x] == n.beforeToAfter[x] {
      if Mapped(n, x) && !Mapped(m, x) {
        assert NewlyExact(l, r, n, c, d, x);
        IsoPairInSubtrees(l, r, c, d, x, n.beforeToAfter[x].value);
      }
    }
    forall y: nat | InSubtree(r, f, y) ensures m.afterToBefore[y] == n.afterToBefore[y] {
      GrowthAfterSide(l, r, m, n, c, d, y);
    }
  }

  lemma GrowthAfterSide(l: Tree, r: Tree, m: Mapping, n: Mapping, c: nat, d: nat, y: nat)
    requires WellFormed(l) && WellFormed(r) && Consistent(l, r, m) && Consistent(l, r, n)
    requires GrownBy(l, r, m, n, c, d) && y < |r.nodes|
    ensures m.afterToBefore[y] == n.afterToBefore[y] || (m.afterToBefore[y].None? && InSubtree(r, d, y))
  {
    if m.afterToBefore[y].Some? {
      assert Mapped(m, m.afterToBefore[y].value);
    } else if n.afterToBefore[y].Some? {
      var x := n.afterToBefore[y].value;
      assert MappedTo(n, x, y);
      assert !Mapped(m, x);
      assert NewlyExact(l, r, n, c, d, x);
      IsoPairInSubtrees(l, r, c, d, x, y);
    }
  }

  lemma IsoMappedKept(l: Tree, r: Tree, m: Mapping, n: Mapping, b: nat, a: nat, c: nat, d: nat)
    requires WellFormed(l) && WellFormed(r) && Sized(l, r, m) && Sized(l, r, n)
    requires GrownBy(l, r, m, n, b, a) && AllIsoMapped(l, r, m, c, d)
    ensures AllIsoMapped(l, r, n, c, d)
  {
    forall x: nat, y: nat | IsoPair(l, r, c, d, x, y) ensures MappedTo(n, x, y) {
      assert MappedTo(m, x, y) && Mapped(m, x);
    }
  }

  lemma AllChildrenMapped(l: Tree, r: Tree, n: Mapping, b: nat, a: nat)
    requires WellFormed(l) && WellFormed(r) && b < |l.nodes| && a < |r.nodes| && |Children(l, b)| == |Children(r, a)|
    requires MappedTo(n, b, a)
    requires forall k :: 0 <= k < |Children(l, b)| ==> AllIsoMapped(l, r, n, Children(l, b)[k], Children(r, a)[k])
    ensures AllIsoMapped(l, r, n, b, a)
  {
    forall x: nat, y: nat | IsoPair(l, r, b, a, x, y) ensures MappedTo(n, x, y) {
      if !(x == b && y == a) {
        var k := IsoPairBelowChild(l, r, b, a, x, y);
      }
    }
  }

  // ----- invariants

  ghost predicate ParentsAgree(l: Tree, r: Tree, m: Mapping, b: nat, a: nat)
    requires WellFormed(l) && WellFormed(r)
  {
    && 0 < b < |l.nodes| && 0 < a < |r.nodes|
    && (Parent(l, b) != 0 && Mapped(m, Parent(l, b)) ==> MappedTo(m, Parent(l, b), Parent(r, a)))
  }

  /** Mapping a pair of equal subtrees whose root was free keeps the whole-run invariant. */
  lemma EqualSubtreeKeepsInvariant(l: Tree, r: Tree, m: Mapping, n: Mapping, b: nat, a: nat)
    requires Invariant(l, r, m) && Consistent(l, r, n) && GrownBy(l, r, m, n, b, a) && AllIsoMapped(l, r, n, b, a)
    requires 0 < b < |l.nodes| && 0 < a < |r.nodes| && SyntaxEqual(l, b, r, a)
    requires !Mapped(m, b) && ParentsAgree(l, r, m, b, a)
    ensures Invariant(l, r, n)
  {
    assert MappedTo(n, b, a) by {
      assert IsoPair(l, r, b, a, b, a);
    }
    GrownSound(l, r, m, n, b, a);
    forall x: nat | x < |n.facts| && Exact(n, x) ensures ExactChildren(l, r, n, x, n.beforeToAfter[x].value) {
      GrownExactBelow(l, r, m, n, b, a, x);
    }
    GrownShapeAbove(l, r, m, n, b, a);
    forall x: nat | 0 < x < |n.facts| && Mapped(n, x) && Parent(l, x) != 0 && Mapped(n, Parent(l, x))
      ensures StaysBelow(l, r, n, x)
    {
      GrownChildrenStay(l, r, m, n, b, a, x);
    }
  }

  lemma GrownSound(l: Tree, r: Tree, m: Mapping, n: Mapping, b: nat, a: nat)
    requires Invariant(l, r, m) && Consistent(l, r, n) && GrownBy(l, r, m, n, b, a)
    ensures Sound(l, r, n) && Rooted(n)
  {
    forall x: nat | x < |n.beforeToAfter| && n.beforeToAfter[x].Some?
      ensures ClaimHolds(l, r, x, n.beforeToAfter[x].value, n.facts[x])
      ensures x > 0 ==> n.facts[x].value.correspondence == ModelForced && n.facts[x].value.claim != InputPair
    {
      if Mapped(m, x) {
        assert ClaimHolds(l, r, x, m.beforeToAfter[x].value, m.facts[x]);
      } else {
        assert NewlyExact(l, r, n, b, a, x);
      }
    }
  }

  lemma GrownExactBelow(l: Tree, r: Tree, m: Mapping, n: Mapping, b: nat, a: nat, x: nat)
    requires Invariant(l, r, m) && Consistent(l, r, n) && GrownBy(l, r, m, n, b, a) && AllIsoMapped(l, r, n, b, a)
    requires 0 < b < |l.nodes| && 0 < a < |r.nodes| && SyntaxEqual(l, b, r, a) && !Mapped(m, b)
    requires x < |n.facts| && Exact(n, x)
    ensures ExactChildren(l, r, n, x, n.beforeToAfter[x].value)
  {
    var y := n.beforeToAfter[x].value;
    if Mapped(m, x) {
      assert ExactChildren(l, r, m, x, y);
      forall k | 0 <= k < |Children(l, x)|
        ensures MappedTo(n, Children(l, x)[k], Children(r, y)[k]) && Exact(n, Children(l, x)[k])
      {
        assert MappedTo(m, Children(l, x)[k], Children(r, y)[k]);
      }
    } else {
      assert NewlyExact(l, r, n, b, a, x);
      SyntaxEqualBelow(l, r, b, a, x, y);
      forall k | 0 <= k < |Children(l, x)|
        ensures MappedTo(n, Children(l, x)[k], Children(r, y)[k]) && Exact(n, Children(l, x)[k])
      {
        var c := Children(l, x)[k];
        IsoPairChild(l, r, b, a, x, y, k);
        IsoPairInSubtrees(l, r, b, a, c, Children(r, y)[k]);
        if Mapped(m, c) {
          OnlyExactBelowUnmapped(l, r, m, b, c);
        } else {
          assert NewlyExact(l, r, n, b, a, c);
        }
      }
    }
  }

  lemma GrownShapeAbove(l: Tree, r: Tree, m: Mapping, n: Mapping, b: nat, a: nat)
    requires Invariant(l, r, m) && Consistent(l, r, n) && GrownBy(l, r, m, n, b, a)
    ensures ShapeAbove(l, r, n)
  {
    forall x: nat | 0 < x < |n.facts| && Mapped(n, x) && !Exact(n, x)
      ensures n.beforeToAfter[x].value != 0 && MappedTo(n, Parent(l, x), Parent(r, n.beforeToAfter[x].value))
      ensures !Exact(n, Parent(l, x))
    {
      assert !Mapped(m, x) ==> NewlyExact(l, r, n, b, a, x);
      assert Mapped(m, Parent(l, x));
    }
  }

  lemma ExactParentMapsChild(l: Tree, r: Tree, m: Mapping, x: nat)
    requires Invariant(l, r, m) && 0 < x < |l.nodes| && Exact(m, Parent(l, x))
    ensures Mapped(m, x)
  {
    var p := Parent(l, x);
    assert ExactChildren(l, r, m, p, m.beforeToAfter[p].value);
    var k: nat :| k < |Children(l, p)| && Children(l, p)[k] == x;
  }

  lemma GrownChildrenStay(l: Tree, r: Tree, m: Mapping, n: Mapping, b: nat, a: nat, x: nat)
    requires Invariant(l, r, m) && Consistent(l, r, n) && GrownBy(l, r, m, n, b, a) && AllIsoMapped(l, r, n, b, a)
    requires 0 < b < |l.nodes| && 0 < a < |r.nodes| && SyntaxEqual(l, b, r, a)
    requires !Mapped(m, b) && ParentsAgree(l, r, m, b, a)
    requires 0 < x < |n.facts| && Mapped(n, x) && Parent(l, x) != 0 && Mapped(n, Parent(l, x))
    ensures StaysBelow(l, r, n, x)
  {
    var p := Parent(l, x);
    if !Mapped(m, p) {
      var q := n.beforeToAfter[p].value;
      assert NewlyExact(l, r, n, b, a, p);
      SyntaxEqualBelow(l, r, b, a, p, q);
      var k: nat :| k < |Children(l, p)| && Children(l, p)[k] == x;
      IsoPairChild(l, r, b, a, p, q, k);
      ChildHasParent(r, q, k);
      assert MappedTo(n, x, Children(r, q)[k]);
    } else if Mapped(m, x) {
      assert StaysBelow(l, r, m, x);
    } else {
      assert NewlyExact(l, r, n, b, a, x);
      assert x == b by {
        if x != b {
          IsoPairInSubtrees(l, r, b, a, p, Parent(r, n.beforeToAfter[x].value));
          OnlyExactBelowUnmapped(l, r, m, b, p);
          ExactParentMapsChild(l, r, m, x);
        }
      }
      assert IsoPair(l, r, b, a, b, a);
    }
  }

  // ----- the state

  class MappingState {
    const before: Tree
    const after: Tree
    var beforeToAfter: seq<Option<nat>>
    var afterToBefore: seq<Option<nat>>
    var facts: seq<Option<Fact>>
    var relations: seq<Relation>

    function View(): Mapping
      reads this
    {
      Mapping(beforeToAfter, afterToBefore, facts, relations)
    }

    constructor (before: Tree, after: Tree)
      requires WellFormed(before) && WellFormed(after)
      ensures this.before == before && this.after == after
      ensures Consistent(before, after, View()) && relations == []
      ensures forall b: nat :: !Mapped(View(), b)
    {
      this.before := before;
      this.after := after;
      beforeToAfter := seq(|before.nodes|, _ => None);
      afterToBefore := seq(|after.nodes|, _ => None);
      facts := seq(|before.nodes|, _ => None);
      relations := [];
    }

    method MapPair(beforeId: nat, afterId: nat, predicateClaim: Predicate, correspondence: Correspondence)
      returns (ok: bool)
      requires WellFormed(before) && WellFormed(after) && Consistent(before, after, View())
      requires beforeId < |before.nodes| && afterId < |after.nodes|
      modifies this
      ensures Consistent(before, after, View())
      ensures (View(), ok) == WithPair(old(View()), beforeId, afterId, Fact(predicateClaim, correspondence))
    {
      WithPairConsistent(before, after, View(), beforeId, afterId, Fact(predicateClaim, correspondence));
      match (beforeToAfter[beforeId], afterToBefore[afterId]) {
        case (Some(existingAfter), Some(existingBefore)) =>
          return existingAfter == afterId && existingBefore == beforeId;
        case (None, None) =>
          beforeToAfter := beforeToAfter[beforeId := Some(afterId)];
          afterToBefore := afterToBefore[afterId := Some(beforeId)];
          facts := facts[beforeId := Some(Fact(predicateClaim, correspondence))];
          relations := relations + [Relation(beforeId, afterId, Fact(predicateClaim, correspondence))];
          return true;
        case _ =>
          return false;
      }
    }

    /** All or nothing: either every isomorphic pair of the two subtrees is mapped, or the state is unchanged. */
    method MapEqualSubtree(beforeId: nat, afterId: nat) returns (ok: bool)
      requires WellFormed(before) && WellFormed(after) && Consistent(before, after, View())
      requires beforeId < |before.nodes| && afterId < |after.nodes|
      modifies this
      ensures ok <==> old(CanMapEqualSubtree(before, after, View(), beforeId, afterId)) &&
                      SyntaxEqual(before, beforeId, after, afterId)
      ensures !ok ==> View() == old(View())
      ensures Consistent(before, after, View())
      ensures ok ==> GrownBy(before, after, old(View()), View(), beforeId, afterId)
      ensures ok ==> AllIsoMapped(before, after, View(), beforeId, afterId)
    {
      if !CanMapEqualSubtree(before, after, View(), beforeId, afterId) ||
          !SyntaxEqual(before, beforeId, after, afterId) {
        return false;
      }
      MapEqualSubtreeUnchecked(beforeId, afterId);
      return true;
    }

    method MapEqualSubtreeUnchecked(beforeId: nat, afterId: nat)
      requires WellFormed(before) && WellFormed(after) && Consistent(before, after, View())
      requires beforeId < |before.nodes| && afterId < |after.nodes|
      requires CanMapEqualSubtree(before, after, View(), beforeId, afterId)
      requires SyntaxEqual(before, beforeId, after, afterId)
      modifies this
      ensures Consistent(before, after, View())
      ensures GrownBy(before, after, old(View()), View(), beforeId, afterId)
      ensures AllIsoMapped(before, after, View(), beforeId, afterId)
      decreases |before.nodes| - beforeId
    {
      hide WellFormed, Consistent, GrownBy, AllIsoMapped;
      ghost var start := View();
      ConsistentIsSized(before, after, start);
      if beforeToAfter[beforeId].None? {
        var claim := if SameBytes(before, beforeId, after, afterId) then ByteEqual else SyntaxEqualPair;
        var _ := MapPair(beforeId, afterId, claim, ModelForced);
      }
      RootMapped(before, after, start, View(), beforeId, afterId);
      var befores, afters := Children(before, beforeId), Children(after, afterId);
      for k := 0 to |befores|
        invariant Consistent(before, after, View()) && Sized(before, after, View()) && Sized(before, after, start)
        invariant GrownBy(before, after, start, View(), beforeId, afterId)
        invariant MappedTo(View(), beforeId, afterId)
        invariant forall j :: 0 <= j < k ==> AllIsoMapped(before, after, View(), befores[j], afters[j])
        invariant forall j :: k <= j < |befores| ==> CanMapEqualSubtree(before, after, View(), befores[j], afters[j])
      {
        SyntaxEqualChild(before, after, beforeId, afterId, k);
        ghost var current := View();
        MapEqualSubtreeUnchecked(befores[k], afters[k]);
        ChildStep(before, after, start, current, View(), beforeId, afterId, k);
      }
      AllChildrenMapped(before, after, View(), beforeId, afterId);
    }
  }

  lemma ConsistentIsSized(l: Tree, r: Tree, m: Mapping)
    requires Consistent(l, r, m)
    ensures Sized(l, r, m)
  {
  }

  lemma RootMapped(l: Tree, r: Tree, m: Mapping, n: Mapping, b: nat, a: nat)
    requires WellFormed(l) && WellFormed(r) && Consistent(l, r, m) && Consistent(l, r, n)
    requires b < |l.nodes| && a < |r.nodes| && CanMapEqualSubtree(l, r, m, b, a) && SyntaxEqual(l, b, r, a)
    requires if m.beforeToAfter[b].Some? then n == m
             else exists fact ::
                    IsExact(Some(fact)) && ClaimHolds(l, r, b, a, Some(fact)) && n == WithPair(m, b, a, fact).0
    ensures Sized(l, r, n) && GrownBy(l, r, m, n, b, a) && MappedTo(n, b, a)
    ensures |Children(l, b)| == |Children(r, a)|
    ensures forall k :: 0 <= k < |Children(l, b)| ==>
                          CanMapEqualSubtree(l, r, n, Children(l, b)[k], Children(r, a)[k])
  {
    if m.beforeToAfter[b].None? {
      var fact :| IsExact(Some(fact)) && ClaimHolds(l, r, b, a, Some(fact)) && n == WithPair(m, b, a, fact).0;
      RootRecorded(l, r, m, b, a, fact);
      forall k | 0 <= k < |Children(l, b)|
        ensures CanMapEqualSubtree(l, r, n, Children(l, b)[k], Children(r, a)[k])
      {
        ChildStillMappable(l, r, m, b, a, fact, k);
      }
    }
  }

  lemma RootRecorded(l: Tree, r: Tree, m: Mapping, b: nat, a: nat, fact: Fact)
    requires WellFormed(l) && WellFormed(r) && Consistent(l, r, m)
    requires b < |l.nodes| && a < |r.nodes| && m.beforeToAfter[b].None? && FreeOrPaired(m, b, a)
    requires IsExact(Some(fact)) && ClaimHolds(l, r, b, a, Some(fact))
    ensures var n := WithPair(m, b, a, fact).0;
            Sized(l, r, n) && GrownBy(l, r, m, n, b, a) && MappedTo(n, b, a)
  {
    assert m.afterToBefore[a].None?;
    var n := WithPair(m, b, a, fact).0;
    forall x: nat | x < |l.nodes| && Mapped(n, x) && !Mapped(m, x) ensures NewlyExact(l, r, n, b, a, x) {
      assert x == b;
    }
  }

  lemma ChildStillMappable(l: Tree, r: Tree, m: Mapping, b: nat, a: nat, fact: Fact, k: nat)
    requires WellFormed(l) && WellFormed(r) && Sized(l, r, m)
    requires b < |l.nodes| && a < |r.nodes| && k < |Children(l, b)| == |Children(r, a)|
    requires CanMapEqualSubtree(l, r, m, Children(l, b)[k], Children(r, a)[k])
    ensures CanMapEqualSubtree(l, r, WithPair(m, b, a, fact).0, Children(l, b)[k], Children(r, a)[k])
  {
    var c, d := Children(l, b)[k], Children(r, a)[k];
    forall x: nat | InSubtree(l, c, x) ensures x != b {
      SubtreeStartsAtRoot(l, c, x);
    }
    forall y: nat | InSubtree(r, d, y) ensures y != a {
      SubtreeStartsAtRoot(r, d, y);
    }
    CanMapEqualFrame(l, r, m, WithPair(m, b, a, fact).0, c, d);
  }

  /** Mapping the k-th pair of children leaves the pairs before it mapped and the pairs after it mappable. */
  lemma ChildStep(l: Tree, r: Tree, m: Mapping, n: Mapping, o: Mapping, b: nat, a: nat, k: nat)
    requires WellFormed(l) && WellFormed(r) && Consistent(l, r, m) && Consistent(l, r, n) && Consistent(l, r, o)
    requires b < |l.nodes| && a < |r.nodes| && k < |Children(l, b)| == |Children(r, a)|
    requires GrownBy(l, r, m, n, b, a) && GrownBy(l, r, n, o, Children(l, b)[k], Children(r, a)[k])
    requires MappedTo(n, b, a)
    ensures Sized(l, r, o) && GrownBy(l, r, m, o, b, a) && MappedTo(o, b, a)
    ensures forall j :: 0 <= j < |Children(l, b)| && AllIsoMapped(l, r, n, Children(l, b)[j], Children(r, a)[j]) ==>
                          AllIsoMapped(l, r, o, Children(l, b)[j], Children(r, a)[j])
    ensures forall j :: 0 <= j < |Children(l, b)| && j != k &&
                        CanMapEqualSubtree(l, r, n, Children(l, b)[j], Children(r, a)[j]) ==>
                          CanMapEqualSubtree(l, r, o, Children(l, b)[j], Children(r, a)[j])
  {
    ConsistentIsSized(l, r, m);
    ConsistentIsSized(l, r, n);
    ConsistentIsSized(l, r, o);
    hide GrownBy, AllIsoMapped, CanMapEqualSubtree, Consistent, WellFormed;
    var c, d := Children(l, b)[k], Children(r, a)[k];
    IsoPairChild(l, r, b, a, b, a, k);
    GrowthComposes(l, r, m, n, o, b, a, c, d);
    GrowthKeepsPair(l, r, n, o, c, d, b, a);
    forall j | 0 <= j < |Children(l, b)| && AllIsoMapped(l, r, n, Children(l, b)[j], Children(r, a)[j])
      ensures AllIsoMapped(l, r, o, Children(l, b)[j], Children(r, a)[j])
    {
      IsoMappedKept(l, r, n, o, c, d, Children(l, b)[j], Children(r, a)[j]);
    }
    forall j | 0 <= j < |Children(l, b)| && j != k &&
               CanMapEqualSubtree(l, r, n, Children(l, b)[j], Children(r, a)[j])
      ensures CanMapEqualSubtree(l, r, o, Children(l, b)[j], Children(r, a)[j])
    {
      SiblingStillMappable(l, r, n, o, b, a, k, j);
    }
  }

  lemma GrowthKeepsPair(l: Tree, r: Tree, m: Mapping, n: Mapping, c: nat, d: nat, x: nat, y: nat)
    requires WellFormed(l) && WellFormed(r) && Sized(l, r, m) && Sized(l, r, n) && GrownBy(l, r, m, n, c, d)
    requires MappedTo(m, x, y)
    ensures MappedTo(n, x, y)
  {
    assert Mapped(m, x);
  }

  lemma SiblingStillMappable(l: Tree, r: Tree, n: Mapping, o: Mapping, b: nat, a: nat, k: nat, j: nat)
    requires WellFormed(l) && WellFormed(r) && Consistent(l, r, n) && Consistent(l, r, o)
    requires b < |l.nodes| && a < |r.nodes| && k < |Children(l, b)| == |Children(r, a)| && j < |Children(l, b)| &&
             j != k
    requires GrownBy(l, r, n, o, Children(l, b)[k], Children(r, a)[k])
    requires CanMapEqualSubtree(l, r, n, Children(l, b)[j], Children(r, a)[j])
    ensures CanMapEqualSubtree(l, r, o, Children(l, b)[j], Children(r, a)[j])
  {
    var c, d, e, f := Children(l, b)[k], Children(r, a)[k], Children(l, b)[j], Children(r, a)[j];
    ConsistentIsSized(l, r, n);
    ConsistentIsSized(l, r, o);
    hide GrownBy, CanMapEqualSubtree, Consistent, WellFormed;
    forall x: nat | InSubtree(l, c, x) ensures !InSubtree(l, e, x) {
      SiblingsDisjoint(l, b, c, e, x);
    }
    forall y: nat | InSubtree(r, d, y) ensures !InSubtree(r, f, y) {
      SiblingsDisjoint(r, a, d, f, y);
    }
    GrowthElsewhere(l, r, n, o, c, d, e, f);
    CanMapEqualFrame(l, r, n, o, e, f);
  }
}
