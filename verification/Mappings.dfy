/** The mapping between two trees as a value: what is mapped, why, and the invariants every step keeps. */
module Mappings {
  import opened Wrappers
  import opened Syntax

  /** A before id and an after id. */
  type Pair = (nat, nat)

  datatype Predicate = InputPair | ByteEqual | SyntaxEqualPair | ShapeEqualPair
  datatype Correspondence = GivenPair | ModelForced | Suggested

  datatype Fact = Fact(claim: Predicate, correspondence: Correspondence)

  datatype Relation = Relation(before: nat, after: nat, fact: Fact)

  datatype Mapping = Mapping(beforeToAfter: seq<Option<nat>>, afterToBefore: seq<Option<nat>>,
                             facts: seq<Option<Fact>>, relations: seq<Relation>)

  predicate IsExact(f: Option<Fact>) {
    f.Some? && f.value.correspondence == ModelForced &&
    (f.value.claim == ByteEqual || f.value.claim == SyntaxEqualPair)
  }

  ghost predicate Sized(l: Tree, r: Tree, m: Mapping) {
    && |m.beforeToAfter| == |m.facts| == |l.nodes|
    && |m.afterToBefore| == |r.nodes|
  }

  /** The two directions are partial inverses, and every mapped before node has one fact and one relation. */
  ghost predicate Consistent(l: Tree, r: Tree, m: Mapping) {
    && Sized(l, r, m)
    && (forall b :: 0 <= b < |m.beforeToAfter| && m.beforeToAfter[b].Some? ==>
                      m.beforeToAfter[b].value < |m.afterToBefore| &&
                      m.afterToBefore[m.beforeToAfter[b].value] == Some(b))
    && (forall a :: 0 <= a < |m.afterToBefore| && m.afterToBefore[a].Some? ==>
                      m.afterToBefore[a].value < |m.beforeToAfter| &&
                      m.beforeToAfter[m.afterToBefore[a].value] == Some(a))
    && (forall b :: 0 <= b < |m.facts| ==> (m.facts[b].Some? <==> m.beforeToAfter[b].Some?))
    && (forall k :: 0 <= k < |m.relations| ==> Records(m, m.relations[k]))
    && (forall j, k :: 0 <= j < k < |m.relations| ==> m.relations[j].before != m.relations[k].before)
    && (forall b :: 0 <= b < |m.beforeToAfter| && m.beforeToAfter[b].Some? ==> HasRelation(m, b))
  }

  ghost predicate Records(m: Mapping, relation: Relation) {
    && relation.before < |m.beforeToAfter| == |m.facts|
    && m.beforeToAfter[relation.before] == Some(relation.after)
    && m.facts[relation.before] == Some(relation.fact)
  }

  ghost predicate HasRelation(m: Mapping, b: nat) {
    exists k :: 0 <= k < |m.relations| && m.relations[k].before == b
  }

  predicate Mapped(m: Mapping, b: nat) {
    b < |m.beforeToAfter| && m.beforeToAfter[b].Some?
  }

  predicate MappedTo(m: Mapping, b: nat, a: nat) {
    b < |m.beforeToAfter| && m.beforeToAfter[b] == Some(a)
  }

  predicate AfterMapped(m: Mapping, a: nat) {
    a < |m.afterToBefore| && m.afterToBefore[a].Some?
  }

  predicate Exact(m: Mapping, b: nat) {
    b < |m.facts| && IsExact(m.facts[b])
  }

  // ----- one pair

  /** Recording a pair succeeds when both ends are free, and changes nothing when either is taken. */
  function WithPair(m: Mapping, b: nat, a: nat, fact: Fact): (Mapping, bool)
    requires b < |m.beforeToAfter| == |m.facts| && a < |m.afterToBefore|
  {
    if m.beforeToAfter[b].None? && m.afterToBefore[a].None? then
      (Mapping(m.beforeToAfter[b := Some(a)], m.afterToBefore[a := Some(b)], m.facts[b := Some(fact)],
               m.relations + [Relation(b, a, fact)]), true)
    else
      (m, m.beforeToAfter[b] == Some(a) && m.afterToBefore[a] == Some(b))
  }

  lemma WithPairConsistent(l: Tree, r: Tree, m: Mapping, b: nat, a: nat, fact: Fact)
    requires Consistent(l, r, m) && b < |l.nodes| && a < |r.nodes|
    ensures Consistent(l, r, WithPair(m, b, a, fact).0)
  {
    if m.beforeToAfter[b].None? && m.afterToBefore[a].None? {
      PairRecorded(l, r, m, b, a, fact);
      PairHasRelation(l, r, m, b, a, fact);
      hide Records, HasRelation;
    }
  }

  lemma PairRecorded(l: Tree, r: Tree, m: Mapping, b: nat, a: nat, fact: Fact)
    requires Consistent(l, r, m) && b < |l.nodes| && a < |r.nodes|
    requires m.beforeToAfter[b].None? && m.afterToBefore[a].None?
    ensures var w := WithPair(m, b, a, fact).0;
            && (forall k :: 0 <= k < |w.relations| ==> Records(w, w.relations[k]))
            && (forall j, k :: 0 <= j < k < |w.relations| ==> w.relations[j].before != w.relations[k].before)
  {
    hide HasRelation;
    var w := WithPair(m, b, a, fact).0;
    forall k | 0 <= k < |w.relations| ensures Records(w, w.relations[k]) {
      if k < |m.relations| {
        assert Records(m, m.relations[k]);
      }
    }
    forall j, k | 0 <= j < k < |w.relations| ensures w.relations[j].before != w.relations[k].before {
      assert Records(m, m.relations[j]);
    }
  }

  lemma PairHasRelation(l: Tree, r: Tree, m: Mapping, b: nat, a: nat, fact: Fact)
    requires Consistent(l, r, m) && b < |l.nodes| && a < |r.nodes|
    requires m.beforeToAfter[b].None? && m.afterToBefore[a].None?
    ensures var w := WithPair(m, b, a, fact).0;
            forall c :: 0 <= c < |w.beforeToAfter| && w.beforeToAfter[c].Some? ==> HasRelation(w, c)
  {
    hide Records;
    var w := WithPair(m, b, a, fact).0;
    forall c | 0 <= c < |w.beforeToAfter| && w.beforeToAfter[c].Some? ensures HasRelation(w, c) {
      if c == b {
        assert w.relations[|m.relations|].before == b;
      } else {
        assert HasRelation(m, c);
        var k :| 0 <= k < |m.relations| && m.relations[k].before == c;
        assert w.relations[k].before == c;
      }
    }
  }

  /** What is recorded stays recorded, with its fact. */
  lemma EarlierPairsStay(l: Tree, r: Tree, m: Mapping, n: Mapping, b: nat, a: nat)
    requires Consistent(l, r, m) && Consistent(l, r, n) && m.relations <= n.relations && MappedTo(m, b, a)
    ensures MappedTo(n, b, a) && b < |m.facts| && b < |n.facts| && n.facts[b] == m.facts[b]
  {
    assert HasRelation(m, b);
    var k :| 0 <= k < |m.relations| && m.relations[k].before == b;
    assert Records(m, m.relations[k]) && Records(n, n.relations[k]);
  }

  /** Relations never outnumber the nodes, so a worklist over them terminates. */
  lemma RelationsBounded(l: Tree, r: Tree, m: Mapping)
    requires Consistent(l, r, m)
    ensures |m.relations| <= |l.nodes|
  {
    assert forall k :: 0 <= k < |m.relations| ==> Records(m, m.relations[k]);
    var befores := seq(|m.relations|, k requires 0 <= k < |m.relations| => m.relations[k].before);
    DistinctBounded(befores, |l.nodes|);
  }

  lemma {:induction false} DistinctBounded(s: seq<nat>, n: nat)
    requires forall k :: 0 <= k < |s| ==> s[k] < n
    requires forall j, k :: 0 <= j < k < |s| ==> s[j] != s[k]
    ensures |s| <= n
    decreases n
  {
    if s != [] {
      var last := s[|s| - 1];
      var rest := seq(|s| - 1, k requires 0 <= k < |s| - 1 => if s[k] == n - 1 then last else s[k]);
      DistinctBounded(rest, n - 1);
    }
  }

  // ----- compatibility of whole subtrees with the current mapping

  predicate FreeOrPaired(m: Mapping, b: nat, a: nat)
    requires b < |m.beforeToAfter| && a < |m.afterToBefore|
  {
    && (m.beforeToAfter[b].None? || m.beforeToAfter[b] == Some(a))
    && (m.afterToBefore[a].None? || m.afterToBefore[a] == Some(b))
  }

  predicate CanMapEqualSubtree(l: Tree, r: Tree, m: Mapping, b: nat, a: nat)
    requires WellFormed(l) && WellFormed(r) && Sized(l, r, m) && b < |l.nodes| && a < |r.nodes|
    decreases |l.nodes| - b
  {
    && l.nodes[b].kind == r.nodes[a].kind
    && |Children(l, b)| == |Children(r, a)|
    && FreeOrPaired(m, b, a)
    && forall k :: 0 <= k < |Children(l, b)| ==> CanMapEqualSubtree(l, r, m, Children(l, b)[k], Children(r, a)[k])
  }

  predicate CanMapShapePair(l: Tree, r: Tree, m: Mapping, b: nat, a: nat)
    requires WellFormed(l) && WellFormed(r) && Sized(l, r, m) && b < |l.nodes| && a < |r.nodes|
    decreases |l.nodes| - b
  {
    && FreeOrPaired(m, b, a)
    && |Children(l, b)| == |Children(r, a)|
    && forall k :: 0 <= k < |Children(l, b)| ==> CanMapShapePair(l, r, m, Children(l, b)[k], Children(r, a)[k])
  }

  /** The two mappings treat everything below b and a alike. */
  ghost predicate AgreeBelow(l: Tree, r: Tree, m: Mapping, n: Mapping, b: nat, a: nat)
    requires WellFormed(l) && WellFormed(r)
  {
    && Sized(l, r, m) && Sized(l, r, n)
    && (forall x: nat :: InSubtree(l, b, x) ==> m.beforeToAfter[x] == n.beforeToAfter[x])
    && (forall y: nat :: InSubtree(r, a, y) ==> m.afterToBefore[y] == n.afterToBefore[y])
  }

  lemma AgreeBelowChild(l: Tree, r: Tree, m: Mapping, n: Mapping, b: nat, a: nat, k: nat)
    requires WellFormed(l) && WellFormed(r) && b < |l.nodes| && a < |r.nodes| && AgreeBelow(l, r, m, n, b, a)
    requires k < |Children(l, b)| && k < |Children(r, a)|
    ensures AgreeBelow(l, r, m, n, Children(l, b)[k], Children(r, a)[k])
  {
    forall x: nat | InSubtree(l, Children(l, b)[k], x) ensures InSubtree(l, b, x) {
      ChildInSubtree(l, b, Children(l, b)[k], x);
    }
    forall y: nat | InSubtree(r, Children(r, a)[k], y) ensures InSubtree(r, a, y) {
      ChildInSubtree(r, a, Children(r, a)[k], y);
    }
  }

  lemma {:induction false} CanMapEqualFrame(l: Tree, r: Tree, m: Mapping, n: Mapping, b: nat, a: nat)
    requires WellFormed(l) && WellFormed(r) && b < |l.nodes| && a < |r.nodes| && AgreeBelow(l, r, m, n, b, a)
    requires CanMapEqualSubtree(l, r, m, b, a)
    ensures CanMapEqualSubtree(l, r, n, b, a)
    decreases |l.nodes| - b
  {
    assert InSubtree(l, b, b) && InSubtree(r, a, a);
    forall k | 0 <= k < |Children(l, b)|
      ensures CanMapEqualSubtree(l, r, n, Children(l, b)[k], Children(r, a)[k])
    {
      AgreeBelowChild(l, r, m, n, b, a, k);
      CanMapEqualFrame(l, r, m, n, Children(l, b)[k], Children(r, a)[k]);
    }
  }

  lemma {:induction false} CanMapShapeFrame(l: Tree, r: Tree, m: Mapping, n: Mapping, b: nat, a: nat)
    requires WellFormed(l) && WellFormed(r) && b < |l.nodes| && a < |r.nodes| && AgreeBelow(l, r, m, n, b, a)
    requires CanMapShapePair(l, r, m, b, a)
    ensures CanMapShapePair(l, r, n, b, a)
    decreases |l.nodes| - b
  {
    assert InSubtree(l, b, b) && InSubtree(r, a, a);
    forall k | 0 <= k < |Children(l, b)|
      ensures CanMapShapePair(l, r, n, Children(l, b)[k], Children(r, a)[k])
    {
      AgreeBelowChild(l, r, m, n, b, a, k);
      CanMapShapeFrame(l, r, m, n, Children(l, b)[k], Children(r, a)[k]);
    }
  }

  // ----- isomorphic paths

  ghost predicate SameIndex(l: Tree, r: Tree, p: nat, q: nat, x: nat, y: nat)
    requires WellFormed(l) && WellFormed(r) && p < |l.nodes| && q < |r.nodes|
  {
    exists k :: 0 <= k < |Children(l, p)| && k < |Children(r, q)| && Children(l, p)[k] == x && Children(r, q)[k] == y
  }

  /** y is reached from a by the same child positions as x from b. */
  ghost predicate IsoPair(l: Tree, r: Tree, b: nat, a: nat, x: nat, y: nat)
    requires WellFormed(l) && WellFormed(r)
    decreases x
  {
    && x < |l.nodes| && y < |r.nodes|
    && ((x == b && y == a) ||
        (x != 0 && y != 0 && IsoPair(l, r, b, a, Parent(l, x), Parent(r, y)) &&
         SameIndex(l, r, Parent(l, x), Parent(r, y), x, y)))
  }

  lemma {:induction false} IsoPairInSubtrees(l: Tree, r: Tree, b: nat, a: nat, x: nat, y: nat)
    requires WellFormed(l) && WellFormed(r) && IsoPair(l, r, b, a, x, y)
    ensures InSubtree(l, b, x) && InSubtree(r, a, y)
    decreases x
  {
    if !(x == b && y == a) {
      IsoPairInSubtrees(l, r, b, a, Parent(l, x), Parent(r, y));
    }
  }

  lemma IsoPairChild(l: Tree, r: Tree, b: nat, a: nat, x: nat, y: nat, k: nat)
    requires WellFormed(l) && WellFormed(r) && IsoPair(l, r, b, a, x, y)
    requires k < |Children(l, x)| && k < |Children(r, y)|
    ensures IsoPair(l, r, b, a, Children(l, x)[k], Children(r, y)[k])
  {
    assert ChildOf(l, x, Children(l, x)[k]) && ChildOf(r, y, Children(r, y)[k]);
    assert SameIndex(l, r, x, y, Children(l, x)[k], Children(r, y)[k]);
  }

  lemma {:induction false} IsoPairTrans(l: Tree, r: Tree, b: nat, a: nat, c: nat, d: nat, x: nat, y: nat)
    requires WellFormed(l) && WellFormed(r) && IsoPair(l, r, b, a, c, d) && IsoPair(l, r, c, d, x, y)
    ensures IsoPair(l, r, b, a, x, y)
    decreases x
  {
    if !(x == c && y == d) {
      IsoPairTrans(l, r, b, a, c, d, Parent(l, x), Parent(r, y));
    }
  }

  /** An isomorphic pair other than the roots lies below one pair of corresponding children. */
  lemma {:induction false} IsoPairBelowChild(l: Tree, r: Tree, b: nat, a: nat, x: nat, y: nat) returns (k: nat)
    requires WellFormed(l) && WellFormed(r) && IsoPair(l, r, b, a, x, y) && !(x == b && y == a)
    ensures b < |l.nodes| && a < |r.nodes| && k < |Children(l, b)| && k < |Children(r, a)|
    ensures IsoPair(l, r, Children(l, b)[k], Children(r, a)[k], x, y)
    decreases x
  {
    hide WellFormed;
    var p, q := Parent(l, x), Parent(r, y);
    if p == b && q == a {
      k :| 0 <= k < |Children(l, p)| && k < |Children(r, q)| && Children(l, p)[k] == x && Children(r, q)[k] == y;
    } else {
      k := IsoPairBelowChild(l, r, b, a, p, q);
    }
  }

  lemma SyntaxEqualChild(l: Tree, r: Tree, p: nat, q: nat, k: nat)
    requires WellFormed(l) && WellFormed(r) && p < |l.nodes| && q < |r.nodes| && SyntaxEqual(l, p, r, q)
    requires k < |Children(l, p)|
    ensures |Children(l, p)| == |Children(r, q)|
    ensures SyntaxEqual(l, Children(l, p)[k], r, Children(r, q)[k])
  {
  }

  /** Syntactic equality of two roots holds all the way down the isomorphic paths. */
  lemma {:induction false} SyntaxEqualBelow(l: Tree, r: Tree, b: nat, a: nat, x: nat, y: nat)
    requires WellFormed(l) && WellFormed(r) && b < |l.nodes| && a < |r.nodes|
    requires SyntaxEqual(l, b, r, a) && IsoPair(l, r, b, a, x, y)
    ensures SyntaxEqual(l, x, r, y)
    decreases x
  {
    hide WellFormed;
    if !(x == b && y == a) {
      var p, q := Parent(l, x), Parent(r, y);
      SyntaxEqualBelow(l, r, b, a, p, q);
      var k: nat :| k < |Children(l, p)| && k < |Children(r, q)| && Children(l, p)[k] == x && Children(r, q)[k] == y;
      SyntaxEqualChild(l, r, p, q, k);
    }
  }

  /** Below syntactically equal roots every node has a counterpart. */
  lemma {:induction false} CounterpartExists(l: Tree, r: Tree, b: nat, a: nat, x: nat) returns (y: nat)
    requires WellFormed(l) && WellFormed(r) && b < |l.nodes| && a < |r.nodes|
    requires SyntaxEqual(l, b, r, a) && InSubtree(l, b, x)
    ensures IsoPair(l, r, b, a, x, y)
    decreases x
  {
    if x == b {
      y := a;
    } else {
      var p := Parent(l, x);
      var q := CounterpartExists(l, r, b, a, p);
      SyntaxEqualBelow(l, r, b, a, p, q);
      var k :| 0 <= k < |Children(l, p)| && Children(l, p)[k] == x;
      IsoPairChild(l, r, b, a, p, q, k);
      y := Children(r, q)[k];
    }
  }

  // ----- the whole-run invariant

  /** The caller's pair is mapped, and it is the only pair not claimed by the model. */
  ghost predicate Rooted(m: Mapping) {
    && MappedTo(m, 0, 0)
    && |m.facts| > 0 && m.facts[0] == Some(Fact(InputPair, GivenPair))
    && forall b :: 0 < b < |m.facts| && m.facts[b].Some? ==>
                     m.facts[b].value.correspondence == ModelForced && m.facts[b].value.claim != InputPair
  }

  predicate SameBytes(l: Tree, b: nat, r: Tree, a: nat)
    requires WellFormed(l) && WellFormed(r) && b < |l.nodes| && a < |r.nodes|
  {
    l.nodes[b].byteHash == r.nodes[a].byteHash && Text(l, b) == Text(r, a)
  }

  /** Every claim the mapping records is true of the two nodes, and the exact claims say which kind of equality
      holds. */
  ghost predicate Sound(l: Tree, r: Tree, m: Mapping)
    requires WellFormed(l) && WellFormed(r)
  {
    Consistent(l, r, m) &&
    forall b :: 0 <= b < |m.beforeToAfter| && m.beforeToAfter[b].Some? ==>
                  ClaimHolds(l, r, b, m.beforeToAfter[b].value, m.facts[b])
  }

  ghost predicate ClaimHolds(l: Tree, r: Tree, b: nat, a: nat, fact: Option<Fact>)
    requires WellFormed(l) && WellFormed(r)
  {
    b < |l.nodes| && a < |r.nodes| && fact.Some? &&
    match fact.value.claim
    case InputPair => true
    case ByteEqual => SyntaxEqual(l, b, r, a) && SameBytes(l, b, r, a)
    case SyntaxEqualPair => SyntaxEqual(l, b, r, a) && !SameBytes(l, b, r, a)
    case ShapeEqualPair => ShapeEqual(l, b, r, a)
  }

  /** An exactly mapped node has its children exactly mapped to the corresponding children. */
  ghost predicate ExactBelow(l: Tree, r: Tree, m: Mapping)
    requires WellFormed(l) && WellFormed(r) && Consistent(l, r, m)
  {
    forall b :: 0 <= b < |m.facts| && Exact(m, b) ==> ExactChildren(l, r, m, b, m.beforeToAfter[b].value)
  }

  ghost predicate ExactChildren(l: Tree, r: Tree, m: Mapping, b: nat, a: nat)
    requires WellFormed(l) && WellFormed(r)
  {
    && b < |l.nodes| && a < |r.nodes| && |Children(l, b)| == |Children(r, a)|
    && forall k :: 0 <= k < |Children(l, b)| ==>
                     MappedTo(m, Children(l, b)[k], Children(r, a)[k]) && Exact(m, Children(l, b)[k])
  }

  /** A node mapped only by shape hangs below a node mapped by shape or given, and so does its counterpart. */
  ghost predicate ShapeAbove(l: Tree, r: Tree, m: Mapping)
    requires WellFormed(l) && WellFormed(r) && Consistent(l, r, m)
  {
    forall b :: 0 < b < |m.facts| && Mapped(m, b) && !Exact(m, b) ==>
                  var a := m.beforeToAfter[b].value;
                  a != 0 && MappedTo(m, Parent(l, b), Parent(r, a)) &&
                  !Exact(m, Parent(l, b))
  }

  /** Below a mapped node other than the root, mapped children stay below its counterpart. */
  ghost predicate ChildrenStay(l: Tree, r: Tree, m: Mapping)
    requires WellFormed(l) && WellFormed(r) && Consistent(l, r, m)
  {
    forall b :: 0 < b < |m.facts| && Mapped(m, b) && Parent(l, b) != 0 && Mapped(m, Parent(l, b)) ==>
                  StaysBelow(l, r, m, b)
  }

  ghost predicate StaysBelow(l: Tree, r: Tree, m: Mapping, b: nat)
    requires WellFormed(l) && WellFormed(r) && Consistent(l, r, m)
  {
    0 < b < |m.facts| && Mapped(m, b) &&
    var a := m.beforeToAfter[b].value;
    a != 0 && m.beforeToAfter[Parent(l, b)] == Some(Parent(r, a))
  }

  ghost predicate Invariant(l: Tree, r: Tree, m: Mapping) {
    && WellFormed(l) && WellFormed(r)
    && Sound(l, r, m) && Rooted(m) && ExactBelow(l, r, m) && ShapeAbove(l, r, m) && ChildrenStay(l, r, m)
  }

  lemma SoundIsConsistent(l: Tree, r: Tree, m: Mapping)
    requires WellFormed(l) && WellFormed(r) && Sound(l, r, m)
    ensures Consistent(l, r, m) && Sized(l, r, m)
  {
  }

  lemma InvariantParts(l: Tree, r: Tree, m: Mapping)
    requires Invariant(l, r, m)
    ensures WellFormed(l) && WellFormed(r) && Consistent(l, r, m) && Sized(l, r, m)
    ensures |m.beforeToAfter| == |m.facts| == |l.nodes| && |m.afterToBefore| == |r.nodes|
  {
  }

  // ----- consequences of the invariant

  /** A node mapped by shape, or given, has all its ancestors mapped on both sides. */
  lemma {:induction false} AncestorsMapped(l: Tree, r: Tree, m: Mapping, b: nat, x: nat)
    requires Invariant(l, r, m) && Mapped(m, b) && !Exact(m, b) && InSubtree(l, x, b)
    ensures Mapped(m, x) && !Exact(m, x)
    decreases b
  {
    if x != b {
      AncestorsMapped(l, r, m, Parent(l, b), x);
    }
  }

  lemma {:induction false} AfterAncestorsMapped(l: Tree, r: Tree, m: Mapping, b: nat, y: nat)
    requires Invariant(l, r, m) && Mapped(m, b) && !Exact(m, b) && InSubtree(r, y, m.beforeToAfter[b].value)
    ensures AfterMapped(m, y) && !Exact(m, m.afterToBefore[y].value)
    decreases b
  {
    if b == 0 {
      assert y == 0;
    } else if y != m.beforeToAfter[b].value {
      AfterAncestorsMapped(l, r, m, Parent(l, b), y);
    }
  }

  /** Everything below an exactly mapped node is exactly mapped to its counterpart. */
  lemma {:induction false} ExactSubtreeMapped(l: Tree, r: Tree, m: Mapping, b: nat, x: nat, y: nat)
    requires Invariant(l, r, m) && Exact(m, b) && IsoPair(l, r, b, m.beforeToAfter[b].value, x, y)
    ensures MappedTo(m, x, y) && Exact(m, x)
    decreases x
  {
    hide WellFormed, ShapeAbove, ChildrenStay, Rooted, ClaimHolds;
    var a := m.beforeToAfter[b].value;
    if !(x == b && y == a) {
      var p, q := Parent(l, x), Parent(r, y);
      ExactSubtreeMapped(l, r, m, b, p, q);
      assert ExactChildren(l, r, m, p, q);
      var k :| 0 <= k < |Children(l, p)| && k < |Children(r, q)| && Children(l, p)[k] == x && Children(r, q)[k] == y;
    }
  }

  /** Whatever is mapped below an unmapped node is mapped exactly. */
  lemma OnlyExactBelowUnmapped(l: Tree, r: Tree, m: Mapping, b: nat, x: nat)
    requires Invariant(l, r, m) && b < |l.nodes| && !Mapped(m, b) && InSubtree(l, b, x) && Mapped(m, x)
    ensures Exact(m, x)
  {
    if !Exact(m, x) {
      AncestorsMapped(l, r, m, x, b);
    }
  }
}
