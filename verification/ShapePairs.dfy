/** What recording one shape pair keeps, and what growth of the mapping leaves alone. */
module ShapePairs {
  import opened Wrappers
  import opened Syntax
  import opened Mappings
  import opened MappingState
  import opened Buckets

  const SHAPE_FACT: Fact := Fact(ShapeEqualPair, ModelForced)

  /** b and a are free children of the mapped pair (p, q), of one shape, and nothing below them conflicts. */
  ghost predicate ShapeStep(l: Tree, r: Tree, m: Mapping, p: nat, q: nat, b: nat, a: nat) {
    && Invariant(l, r, m) && MappedTo(m, p, q)
    && 0 < b < |l.nodes| && 0 < a < |r.nodes| && Parent(l, b) == p && Parent(r, a) == q
    && !Mapped(m, b) && !AfterMapped(m, a)
    && ShapeEqual(l, b, r, a) && CanMapShapePair(l, r, m, b, a)
  }

  /** Mapping a shape pair below a mapped parent keeps the whole-run invariant. */
  lemma ShapePairKeepsInvariant(l: Tree, r: Tree, m: Mapping, p: nat, q: nat, b: nat, a: nat)
    requires ShapeStep(l, r, m, p, q, b, a)
    ensures Invariant(l, r, WithPair(m, b, a, SHAPE_FACT).0)
  {
    hide ShapeEqual;
    var n := WithPair(m, b, a, SHAPE_FACT).0;
    WithPairConsistent(l, r, m, b, a, SHAPE_FACT);
    ShapeKeepsExact(l, r, m, p, q, b, a);
    ShapeKeepsAbove(l, r, m, p, q, b, a);
    forall x: nat | 0 < x < |n.facts| && Mapped(n, x) && Parent(l, x) != 0 && Mapped(n, Parent(l, x))
      ensures StaysBelow(l, r, n, x)
    {
      ShapeKeepsChild(l, r, m, p, q, b, a, x);
    }
  }

  lemma ShapeKeepsExact(l: Tree, r: Tree, m: Mapping, p: nat, q: nat, b: nat, a: nat)
    requires ShapeStep(l, r, m, p, q, b, a)
    ensures var n := WithPair(m, b, a, SHAPE_FACT).0;
            Consistent(l, r, n) && Sound(l, r, n) && Rooted(n) && ExactBelow(l, r, n)
  {
    hide ShapeEqual, CanMapShapePair, ShapeAbove, ChildrenStay;
    var n := WithPair(m, b, a, SHAPE_FACT).0;
    WithPairConsistent(l, r, m, b, a, SHAPE_FACT);
    ShapeKeepsSound(l, r, m, b, a);
    forall x: nat | x < |n.facts| && Exact(n, x) ensures ExactChildren(l, r, n, x, n.beforeToAfter[x].value) {
      assert x != b;
      assert ExactChildren(l, r, m, x, m.beforeToAfter[x].value);
      ExactChildrenKept(l, r, m, b, a, x, m.beforeToAfter[x].value);
    }
  }

  lemma ShapeKeepsSound(l: Tree, r: Tree, m: Mapping, b: nat, a: nat)
    requires WellFormed(l) && WellFormed(r) && Sound(l, r, m) && Rooted(m)
    requires 0 < b < |l.nodes| && a < |r.nodes| && !Mapped(m, b) && !AfterMapped(m, a) && ShapeEqual(l, b, r, a)
    ensures var n := WithPair(m, b, a, SHAPE_FACT).0; Sound(l, r, n) && Rooted(n)
  {
    hide ShapeEqual, SyntaxEqual;
    WithPairConsistent(l, r, m, b, a, SHAPE_FACT);
  }

  lemma ExactChildrenKept(l: Tree, r: Tree, m: Mapping, b: nat, a: nat, x: nat, y: nat)
    requires WellFormed(l) && WellFormed(r) && Sized(l, r, m) && ExactChildren(l, r, m, x, y)
    requires b < |l.nodes| && a < |r.nodes| && !Mapped(m, b)
    ensures ExactChildren(l, r, WithPair(m, b, a, SHAPE_FACT).0, x, y)
  {
    hide WellFormed;
  }

  lemma ShapeKeepsAbove(l: Tree, r: Tree, m: Mapping, p: nat, q: nat, b: nat, a: nat)
    requires ShapeStep(l, r, m, p, q, b, a)
    requires Consistent(l, r, WithPair(m, b, a, SHAPE_FACT).0)
    ensures ShapeAbove(l, r, WithPair(m, b, a, SHAPE_FACT).0)
  {
    ParentNotExact(l, r, m, b);
    SoundIsConsistent(l, r, m);
    AboveAfterPair(l, r, m, p, q, b, a);
  }

  lemma AboveAfterPair(l: Tree, r: Tree, m: Mapping, p: nat, q: nat, b: nat, a: nat)
    requires WellFormed(l) && WellFormed(r) && Sized(l, r, m) && Consistent(l, r, m) && ShapeAbove(l, r, m)
    requires MappedTo(m, p, q) && !Exact(m, p)
    requires 0 < b < |l.nodes| && 0 < a < |r.nodes| && Parent(l, b) == p && Parent(r, a) == q
    requires !Mapped(m, b) && !AfterMapped(m, a)
    requires Consistent(l, r, WithPair(m, b, a, SHAPE_FACT).0)
    ensures ShapeAbove(l, r, WithPair(m, b, a, SHAPE_FACT).0)
  {
    hide Consistent, WellFormed;
    var n := WithPair(m, b, a, SHAPE_FACT).0;
    forall x: nat | 0 < x < |n.facts| && Mapped(n, x) && !Exact(n, x)
      ensures n.beforeToAfter[x].value != 0 && MappedTo(n, Parent(l, x), Parent(r, n.beforeToAfter[x].value))
      ensures !Exact(n, Parent(l, x))
    {
      if x != b {
        assert Mapped(m, x) && !Exact(m, x);
      }
    }
  }

  /** A node with an unmapped child is not exactly mapped. */
  lemma ParentNotExact(l: Tree, r: Tree, m: Mapping, b: nat)
    requires Invariant(l, r, m) && 0 < b < |l.nodes| && !Mapped(m, b)
    ensures !Exact(m, Parent(l, b))
  {
    hide WellFormed, Sound, ShapeAbove, ChildrenStay, ExactBelow;
    if Exact(m, Parent(l, b)) {
      ExactParentMapsChild(l, r, m, b);
    }
  }

  lemma ShapeKeepsChild(l: Tree, r: Tree, m: Mapping, p: nat, q: nat, b: nat, a: nat, x: nat)
    requires ShapeStep(l, r, m, p, q, b, a)
    requires Consistent(l, r, WithPair(m, b, a, SHAPE_FACT).0)
    requires 0 < x < |l.nodes| && Mapped(WithPair(m, b, a, SHAPE_FACT).0, x) && Parent(l, x) != 0
    requires Mapped(WithPair(m, b, a, SHAPE_FACT).0, Parent(l, x))
    ensures StaysBelow(l, r, WithPair(m, b, a, SHAPE_FACT).0, x)
  {
    hide ShapeEqual, WellFormed, Sound, ExactBelow, ShapeAbove, Consistent;
    InvariantParts(l, r, m);
    var n := WithPair(m, b, a, SHAPE_FACT).0;
    if x == b {
    } else if Parent(l, x) == b {
      var k: nat :| k < |Children(l, b)| && Children(l, b)[k] == x;
      assert CanMapShapePair(l, r, m, x, Children(r, a)[k]);
      ChildHasParent(r, a, k);
    } else {
      assert StaysBelow(l, r, m, x);
    }
  }

  // ----- growth within bounds

  /** Nothing mapped is lost or changed, and whatever is newly mapped lies within the given ids. */
  ghost predicate GrewWithin(l: Tree, r: Tree, m: Mapping, n: Mapping, befores: set<nat>, afters: set<nat>) {
    && Consistent(l, r, m) && Consistent(l, r, n) && m.relations <= n.relations
    && (forall x: nat :: x < |l.nodes| && Mapped(m, x) ==>
                           n.beforeToAfter[x] == m.beforeToAfter[x] && n.facts[x] == m.facts[x])
    && (forall x: nat :: Mapped(n, x) && !Mapped(m, x) ==> x in befores)
    && (forall y: nat :: AfterMapped(n, y) && !AfterMapped(m, y) ==> y in afters)
  }

  lemma GrewNothing(l: Tree, r: Tree, m: Mapping)
    requires Consistent(l, r, m)
    ensures GrewWithin(l, r, m, m, {}, {})
  {
    hide Consistent;
    ConsistentIsSized(l, r, m);
  }

  lemma GrewFurther(l: Tree, r: Tree, m: Mapping, n: Mapping, o: Mapping, b1: set<nat>, a1: set<nat>,
                    b2: set<nat>, a2: set<nat>)
    requires GrewWithin(l, r, m, n, b1, a1) && GrewWithin(l, r, n, o, b2, a2)
    ensures GrewWithin(l, r, m, o, b1 + b2, a1 + a2)
  {
    hide Consistent;
    ConsistentIsSized(l, r, m);
    ConsistentIsSized(l, r, n);
    ConsistentIsSized(l, r, o);
    forall x: nat | x < |l.nodes| && Mapped(m, x)
      ensures o.beforeToAfter[x] == m.beforeToAfter[x] && o.facts[x] == m.facts[x]
    {
      assert Mapped(n, x);
    }
    assert m.relations <= o.relations by {
      assert forall i :: 0 <= i < |m.relations| ==> m.relations[i] == n.relations[i];
    }
  }

  lemma PairGrew(l: Tree, r: Tree, m: Mapping, b: nat, a: nat, fact: Fact)
    requires Consistent(l, r, m) && b < |l.nodes| && a < |r.nodes|
    ensures GrewWithin(l, r, m, WithPair(m, b, a, fact).0, {b}, {a})
  {
    WithPairConsistent(l, r, m, b, a, fact);
  }

  ghost function SubtreeSet(t: Tree, root: nat): set<nat>
    requires WellFormed(t)
  {
    set x: nat | x < |t.nodes| && InSubtree(t, root, x)
  }

  lemma EqualSubtreeGrew(l: Tree, r: Tree, m: Mapping, n: Mapping, b: nat, a: nat)
    requires WellFormed(l) && WellFormed(r) && Consistent(l, r, m) && Consistent(l, r, n) && GrownBy(l, r, m, n, b, a)
    ensures GrewWithin(l, r, m, n, SubtreeSet(l, b), SubtreeSet(r, a))
  {
    forall x: nat | Mapped(n, x) && !Mapped(m, x) ensures x in SubtreeSet(l, b) {
      assert NewlyExact(l, r, n, b, a, x);
      IsoPairInSubtrees(l, r, b, a, x, n.beforeToAfter[x].value);
    }
    forall y: nat | AfterMapped(n, y) && !AfterMapped(m, y) ensures y in SubtreeSet(r, a) {
      GrowthAfterSide(l, r, m, n, b, a, y);
    }
  }

  // ----- children that stay free

  /** A set of children of one mapped pair that are all still unmapped; the parents are not exactly mapped. */
  ghost predicate FreeChildren(l: Tree, r: Tree, m: Mapping, p: nat, q: nat, befores: seq<nat>, afters: seq<nat>) {
    && WellFormed(l) && WellFormed(r) && p < |l.nodes| && q < |r.nodes| && MappedTo(m, p, q)
    && (forall b :: b in befores ==> b in Children(l, p) && !Mapped(m, b))
    && (forall a :: a in afters ==> a in Children(r, q) && !AfterMapped(m, a))
  }

  lemma FreeChildrenKept(l: Tree, r: Tree, m: Mapping, n: Mapping, p: nat, q: nat, befores: seq<nat>, afters: seq<nat>,
                         newBefore: set<nat>, newAfter: set<nat>)
    requires FreeChildren(l, r, m, p, q, befores, afters) && GrewWithin(l, r, m, n, newBefore, newAfter)
    requires forall b :: b in befores ==> b !in newBefore
    requires forall a :: a in afters ==> a !in newAfter
    ensures FreeChildren(l, r, n, p, q, befores, afters)
  {
    hide WellFormed, Consistent;
    ConsistentIsSized(l, r, m);
    ConsistentIsSized(l, r, n);
    assert Mapped(m, p);
  }

  lemma ParentOfChild(t: Tree, p: nat, c: nat)
    requires WellFormed(t) && p < |t.nodes| && c in Children(t, p)
    ensures 0 < c < |t.nodes| && Parent(t, c) == p
  {
    var k: nat :| k < |Children(t, p)| && Children(t, p)[k] == c;
    ChildHasParent(t, p, k);
  }

  /** A free child of a mapped parent is not below a free child of a different parent: every ancestor of it is
      mapped. */
  lemma FreeChildNotBelow(l: Tree, r: Tree, m: Mapping, p: nat, x: nat, b: nat)
    requires Invariant(l, r, m) && p < |l.nodes| && Mapped(m, p) && x in Children(l, p) && !Mapped(m, x)
    requires 0 < b < |l.nodes| && !Mapped(m, b) && Parent(l, b) != p
    ensures !InSubtree(l, b, x)
  {
    ParentOfChild(l, p, x);
    if InSubtree(l, b, x) {
      if Exact(m, p) {
        ExactParentMapsChild(l, r, m, x);
      }
      AncestorsMapped(l, r, m, p, b);
    }
  }
}
