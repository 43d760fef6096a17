/** What the mapping predicates say about the fields of the two trees: conflicts, claims and candidate pairs. */
module Claims {
  import opened Wrappers
  import opened Syntax
  import opened Serials
  import opened Mappings

  // ----- conflicts with what is mapped

  ghost predicate NoConflict(l: Tree, r: Tree, m: Mapping, x: nat, y: nat)
    requires Sized(l, r, m) && x < |l.nodes| && y < |r.nodes|
  {
    && (m.beforeToAfter[x] == None || m.beforeToAfter[x] == Some(y))
    && (m.afterToBefore[y] == None || m.afterToBefore[y] == Some(x))
  }

  /** Nodes at the same position below b and a have equally many children and are free or mapped to each other, and if
      asked for are of one kind. */
  ghost predicate FitsBelow(l: Tree, r: Tree, m: Mapping, b: nat, a: nat, kinds: bool)
    requires WellFormed(l) && WellFormed(r) && Sized(l, r, m)
  {
    forall x: nat, y: nat :: IsoPair(l, r, b, a, x, y) ==>
                               && |l.nodes[x].children| == |r.nodes[y].children| && NoConflict(l, r, m, x, y)
                               && (kinds ==> l.nodes[x].kind == r.nodes[y].kind)
  }

  ghost predicate CanMap(l: Tree, r: Tree, m: Mapping, b: nat, a: nat, kinds: bool)
    requires WellFormed(l) && WellFormed(r) && Sized(l, r, m) && b < |l.nodes| && a < |r.nodes|
  {
    if kinds then CanMapEqualSubtree(l, r, m, b, a) else CanMapShapePair(l, r, m, b, a)
  }

  lemma CanMapUnfolds(l: Tree, r: Tree, m: Mapping, b: nat, a: nat, kinds: bool)
    requires WellFormed(l) && WellFormed(r) && Sized(l, r, m) && b < |l.nodes| && a < |r.nodes|
    ensures CanMap(l, r, m, b, a, kinds) <==>
            && |l.nodes[b].children| == |r.nodes[a].children| && NoConflict(l, r, m, b, a)
            && (kinds ==> l.nodes[b].kind == r.nodes[a].kind)
            && forall k :: 0 <= k < |Children(l, b)| ==> CanMap(l, r, m, Children(l, b)[k], Children(r, a)[k], kinds)
  {
    hide WellFormed;
    if kinds {
      hide CanMapShapePair;
    } else {
      hide CanMapEqualSubtree;
    }
  }

  lemma {:induction false} MappableFits(l: Tree, r: Tree, m: Mapping, b: nat, a: nat, kinds: bool, x: nat, y: nat)
    requires WellFormed(l) && WellFormed(r) && Sized(l, r, m) && b < |l.nodes| && a < |r.nodes|
    requires CanMap(l, r, m, b, a, kinds) && IsoPair(l, r, b, a, x, y)
    ensures CanMap(l, r, m, x, y, kinds)
    decreases x
  {
    hide WellFormed, CanMap, NoConflict;
    if !(x == b && y == a) {
      var p, q := Parent(l, x), Parent(r, y);
      MappableFits(l, r, m, b, a, kinds, p, q);
      CanMapUnfolds(l, r, m, p, q, kinds);
      var k: nat :| k < |Children(l, p)| && k < |Children(r, q)| && Children(l, p)[k] == x && Children(r, q)[k] == y;
    }
  }

  lemma {:induction false} FittingIsMappable(l: Tree, r: Tree, m: Mapping, b: nat, a: nat, kinds: bool)
    requires WellFormed(l) && WellFormed(r) && Sized(l, r, m) && b < |l.nodes| && a < |r.nodes|
    requires FitsBelow(l, r, m, b, a, kinds)
    ensures CanMap(l, r, m, b, a, kinds)
    decreases |l.nodes| - b
  {
    hide WellFormed, CanMap, NoConflict;
    assert IsoPair(l, r, b, a, b, a);
    forall k | 0 <= k < |Children(l, b)|
      ensures |l.nodes[b].children| == |r.nodes[a].children|
      ensures CanMap(l, r, m, Children(l, b)[k], Children(r, a)[k], kinds)
    {
      IsoPairChild(l, r, b, a, b, a, k);
      var c, d := Children(l, b)[k], Children(r, a)[k];
      forall x: nat, y: nat | IsoPair(l, r, c, d, x, y) ensures IsoPair(l, r, b, a, x, y) {
        IsoPairTrans(l, r, b, a, c, d, x, y);
      }
      FittingIsMappable(l, r, m, c, d, kinds);
    }
    CanMapUnfolds(l, r, m, b, a, kinds);
  }

  /** The recursive conflict tests look at every position below the two nodes. */
  lemma CanMapExactly(l: Tree, r: Tree, m: Mapping, b: nat, a: nat, kinds: bool)
    requires WellFormed(l) && WellFormed(r) && Sized(l, r, m) && b < |l.nodes| && a < |r.nodes|
    ensures CanMap(l, r, m, b, a, kinds) <==> FitsBelow(l, r, m, b, a, kinds)
  {
    hide WellFormed, CanMap, NoConflict;
    if CanMap(l, r, m, b, a, kinds) {
      forall x: nat, y: nat | IsoPair(l, r, b, a, x, y)
        ensures |l.nodes[x].children| == |r.nodes[y].children| && NoConflict(l, r, m, x, y)
        ensures kinds ==> l.nodes[x].kind == r.nodes[y].kind
      {
        MappableFits(l, r, m, b, a, kinds, x, y);
        CanMapUnfolds(l, r, m, x, y, kinds);
      }
    }
    if FitsBelow(l, r, m, b, a, kinds) {
      FittingIsMappable(l, r, m, b, a, kinds);
    }
  }

  // ----- pairs the index proposes and the comparison confirms

  /** Equal kind, field and shape digest, and one serial up to kinds of one class. */
  ghost predicate OneShape(l: Tree, r: Tree, b: nat, a: nat)
    requires WellFormed(l) && WellFormed(r)
  {
    && b < |l.nodes| && a < |r.nodes|
    && l.nodes[b].kind == r.nodes[a].kind && l.nodes[b].field == r.nodes[a].field
    && l.nodes[b].shapeHash == r.nodes[a].shapeHash && SameSerial(l, r, ByClass, b, a)
  }

  /** Of one shape, and without a conflict at or below the pair. */
  ghost predicate Proposed(l: Tree, r: Tree, m: Mapping, b: nat, a: nat)
    requires WellFormed(l) && WellFormed(r) && Sized(l, r, m)
  {
    OneShape(l, r, b, a) && FitsBelow(l, r, m, b, a, false)
  }

  // ----- claims

  ghost predicate SameSource(l: Tree, r: Tree, b: nat, a: nat)
    requires WellFormed(l) && WellFormed(r) && b < |l.nodes| && a < |r.nodes|
  {
    && l.nodes[b].byteHash == r.nodes[a].byteHash
    && l.source[l.nodes[b].start..l.nodes[b].end] == r.source[r.nodes[a].start..r.nodes[a].end]
  }

  /** What a recorded claim says about the bytes and serials of its two nodes. */
  ghost predicate Truthful(l: Tree, r: Tree, b: nat, a: nat, fact: Fact)
    requires WellFormed(l) && WellFormed(r) && b < |l.nodes| && a < |r.nodes|
  {
    && (fact.claim == ByteEqual ==> SameSerial(l, r, Verbatim, b, a) && SameSource(l, r, b, a))
    && (fact.claim == SyntaxEqualPair ==> SameSerial(l, r, Verbatim, b, a) && !SameSource(l, r, b, a))
    && (fact.claim == ShapeEqualPair ==> SameSerial(l, r, ByClass, b, a))
  }

  lemma ClaimExactly(l: Tree, r: Tree, b: nat, a: nat, fact: Fact)
    requires WellFormed(l) && WellFormed(r) && b < |l.nodes| && a < |r.nodes|
    ensures ClaimHolds(l, r, b, a, Some(fact)) <==> Truthful(l, r, b, a, fact)
  {
    hide SyntaxEqual, ShapeEqual, SameSerial;
    SyntaxExactly(l, b, r, a);
    ShapeExactly(l, b, r, a);
  }

  /** Everything the mapping records is true of the files: identical relations of one serial, byte for byte or not, and
      shape relations of one serial up to kinds of one class. */
  lemma RelationsTruthful(l: Tree, r: Tree, m: Mapping)
    requires Invariant(l, r, m)
    ensures forall k :: 0 <= k < |m.relations| ==>
              m.relations[k].before < |l.nodes| && m.relations[k].after < |r.nodes| &&
              Truthful(l, r, m.relations[k].before, m.relations[k].after, m.relations[k].fact)
  {
    hide WellFormed, ExactBelow, ShapeAbove, ChildrenStay, Truthful, Rooted, SyntaxEqual, ShapeEqual;
    forall k | 0 <= k < |m.relations|
      ensures m.relations[k].before < |l.nodes| && m.relations[k].after < |r.nodes| &&
              Truthful(l, r, m.relations[k].before, m.relations[k].after, m.relations[k].fact)
    {
      var relation := m.relations[k];
      assert Records(m, relation);
      ClaimExactly(l, r, relation.before, relation.after, relation.fact);
    }
  }

  /** Two nodes of one serial have, position by position, nodes of one serial below them. */
  lemma SerialBelow(l: Tree, r: Tree, b: nat, a: nat, x: nat, y: nat)
    requires WellFormed(l) && WellFormed(r) && b < |l.nodes| && a < |r.nodes|
    requires SameSerial(l, r, Verbatim, b, a) && IsoPair(l, r, b, a, x, y)
    ensures SameSerial(l, r, Verbatim, x, y)
  {
    hide SyntaxEqual, SameSerial, WellFormed;
    SyntaxExactly(l, b, r, a);
    SyntaxEqualBelow(l, r, b, a, x, y);
    SyntaxExactly(l, x, r, y);
  }
}
