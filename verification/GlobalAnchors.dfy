/** The first pass: mapping the globally unique identical subtrees, largest first. */
module GlobalAnchors {
  import opened Wrappers
  import opened Syntax
  import opened Buckets
  import opened Mappings
  import opened MappingState
  import opened UniquePairs
  import Sorting

  const MINIMUM_ANCHOR_SIZE: nat := 3

  /** The nodes other than the root that are large enough to be anchors, in id order. */
  function AnchorIds(t: Tree, n: nat): (ids: seq<nat>)
    requires n <= |t.nodes|
    ensures forall id :: id in ids <==> 0 < id < n && t.nodes[id].subtreeSize >= MINIMUM_ANCHOR_SIZE
  {
    if n == 0 then []
    else
      var rest := AnchorIds(t, n - 1);
      if n > 1 && t.nodes[n - 1].subtreeSize >= MINIMUM_ANCHOR_SIZE then rest + [n - 1] else rest
  }

  lemma {:induction false} AnchorIdsValid(t: Tree, n: nat)
    requires WellFormed(t) && n <= |t.nodes|
    ensures ValidIds(t, AnchorIds(t, n))
    decreases n
  {
    hide WellFormed;
    if n > 0 {
      AnchorIdsValid(t, n - 1);
      assert n - 1 !in AnchorIds(t, n - 1);
    }
    forall k | 0 <= k < |AnchorIds(t, n)| ensures AnchorIds(t, n)[k] < |t.nodes| {
      assert AnchorIds(t, n)[k] in AnchorIds(t, n);
    }
  }

  predicate AnchorLe(l: Tree, p: Pair, q: Pair) {
    var m, n := SizeOf(l, p.0), SizeOf(l, q.0);
    m > n || (m == n && (p.0 < q.0 || (p.0 == q.0 && p.1 <= q.1)))
  }

  function SizeOf(t: Tree, id: nat): nat {
    if id < |t.nodes| then t.nodes[id].subtreeSize else 0
  }

  /** Apart from the roots, only exact pairs are mapped. */
  ghost predicate ExactBeyondRoot(m: Mapping) {
    forall x: nat :: 0 < x && Mapped(m, x) ==> Exact(m, x)
  }

  /** A subtree is smaller than the one it hangs in, and equal syntax has equal size and equal digest. */
  ghost predicate FaithfulDigests(l: Tree, r: Tree) {
    && WellFormed(l) && WellFormed(r) && Nested(l) && Nested(r)
    && forall b: nat, a: nat :: b < |l.nodes| && a < |r.nodes| && SyntaxEqual(l, b, r, a) ==>
                                  l.nodes[b].subtreeSize == r.nodes[a].subtreeSize &&
                                  l.nodes[b].syntaxHash == r.nodes[a].syntaxHash
  }

  ghost predicate Nested(t: Tree)
    requires WellFormed(t)
  {
    forall x: nat :: 0 < x < |t.nodes| ==> t.nodes[x].subtreeSize < t.nodes[Parent(t, x)].subtreeSize
  }

  ghost predicate IsCandidate(l: Tree, r: Tree, p: Pair)
    requires WellFormed(l) && WellFormed(r)
  {
    && Within(l, AnchorIds(l, |l.nodes|)) && Within(r, AnchorIds(r, |r.nodes|))
    && UniquePair(l, r, BySubtree, AnchorIds(l, |l.nodes|), AnchorIds(r, |r.nodes|), p)
  }

  ghost predicate LargeEnough(t: Tree, id: nat) {
    0 < id < |t.nodes| && t.nodes[id].subtreeSize >= 3
  }

  /** Below the roots, of three nodes or more, alike, and without their like of that size in their files. */
  ghost predicate UniqueInFiles(l: Tree, r: Tree, p: Pair) {
    && LargeEnough(l, p.0) && LargeEnough(r, p.1) && Alike(l, p.0, r, p.1, BySubtree)
    && (forall b: nat :: LargeEnough(l, b) && Alike(l, b, l, p.0, BySubtree) ==> b == p.0)
    && (forall a: nat :: LargeEnough(r, a) && Alike(r, a, r, p.1, BySubtree) ==> a == p.1)
  }

  /** The candidates, by the fields of their nodes. */
  lemma CandidateExactly(l: Tree, r: Tree, p: Pair)
    requires WellFormed(l) && WellFormed(r)
    ensures IsCandidate(l, r, p) <==> UniqueInFiles(l, r, p)
  {
    hide WellFormed, UniquePair, Alike;
    AnchorIdsValid(l, |l.nodes|);
    AnchorIdsValid(r, |r.nodes|);
    UniqueExactly(l, r, BySubtree, AnchorIds(l, |l.nodes|), AnchorIds(r, |r.nodes|), p);
  }

  /** Every globally unique pair whose syntax really is equal ends up mapped to each other. */
  ghost predicate AllAnchorsMapped(l: Tree, r: Tree, m: Mapping)
    requires WellFormed(l) && WellFormed(r)
  {
    forall p: Pair :: IsCandidate(l, r, p) && p.0 < |l.nodes| && p.1 < |r.nodes| && SyntaxEqual(l, p.0, r, p.1) ==>
                        MappedTo(m, p.0, p.1)
  }

  ghost predicate InOrder(l: Tree, r: Tree, candidates: seq<Pair>)
    requires WellFormed(l) && WellFormed(r)
  {
    && (forall k :: 0 <= k < |candidates| ==> IsCandidate(l, r, candidates[k]))
    && (forall j, k :: 0 <= j < k < |candidates| ==> AnchorLe(l, candidates[j], candidates[k]))
  }

  // ----- keeping the invariants

  lemma AnchorKeepsInvariant(l: Tree, r: Tree, m: Mapping, n: Mapping, b: nat, a: nat)
    requires Invariant(l, r, m) && ExactBeyondRoot(m) && Consistent(l, r, n)
    requires 0 < b < |l.nodes| && 0 < a < |r.nodes| && SyntaxEqual(l, b, r, a) && CanMapEqualSubtree(l, r, m, b, a)
    requires !MappedTo(m, b, a) && GrownBy(l, r, m, n, b, a) && AllIsoMapped(l, r, n, b, a)
    ensures Invariant(l, r, n) && ExactBeyondRoot(n)
  {
    hide SyntaxEqual;
    assert !Mapped(m, b);
    assert ParentsAgree(l, r, m, b, a) by {
      if Parent(l, b) != 0 && Mapped(m, Parent(l, b)) {
        ExactParentMapsChild(l, r, m, b);
      }
    }
    EqualSubtreeKeepsInvariant(l, r, m, n, b, a);
    GrownStaysExact(l, r, m, n, b, a);
  }

  lemma GrownStaysExact(l: Tree, r: Tree, m: Mapping, n: Mapping, b: nat, a: nat)
    requires WellFormed(l) && WellFormed(r) && Sized(l, r, m) && Sized(l, r, n)
    requires ExactBeyondRoot(m) && GrownBy(l, r, m, n, b, a)
    ensures ExactBeyondRoot(n)
  {
    forall x: nat | 0 < x && Mapped(n, x) ensures Exact(n, x) {
      assert !Mapped(m, x) ==> NewlyExact(l, r, n, b, a, x);
    }
  }

  // ----- no anchor is lost

  /** The node was mapped while mapping one of the first n candidates. */
  ghost predicate Anchored(l: Tree, r: Tree, m: Mapping, candidates: seq<Pair>, n: nat, x: nat)
    requires WellFormed(l) && WellFormed(r)
  {
    exists j :: 0 <= j < n && j < |candidates| && AnchoredBy(l, r, m, candidates[j], x)
  }

  ghost predicate AnchoredBy(l: Tree, r: Tree, m: Mapping, p: Pair, x: nat)
    requires WellFormed(l) && WellFormed(r)
  {
    && p.0 < |l.nodes| && p.1 < |r.nodes| && SyntaxEqual(l, p.0, r, p.1) && MappedTo(m, p.0, p.1) && Exact(m, p.0)
    && Mapped(m, x) && IsoPair(l, r, p.0, p.1, x, m.beforeToAfter[x].value)
  }

  /** Apart from the roots, whatever is mapped lies at or below a globally unique pair, by position. */
  ghost predicate AnchorsOnly(l: Tree, r: Tree, m: Mapping)
    requires WellFormed(l) && WellFormed(r)
  {
    forall x: nat :: 0 < x && Mapped(m, x) ==> AnchoredBySome(l, r, m, x)
  }

  ghost predicate AnchoredBySome(l: Tree, r: Tree, m: Mapping, x: nat)
    requires WellFormed(l) && WellFormed(r)
  {
    exists p: Pair :: IsCandidate(l, r, p) && AnchoredBy(l, r, m, p, x)
  }

  lemma AnchorsOnlyKept(l: Tree, r: Tree, m: Mapping, o: Mapping, p: Pair)
    requires WellFormed(l) && WellFormed(r) && Sized(l, r, m) && Sized(l, r, o) && AnchorsOnly(l, r, m)
    requires IsCandidate(l, r, p) && 0 < p.0 < |l.nodes| && 0 < p.1 < |r.nodes| && ExactBeyondRoot(o)
    requires SyntaxEqual(l, p.0, r, p.1) && GrownBy(l, r, m, o, p.0, p.1) && MappedTo(o, p.0, p.1)
    ensures AnchorsOnly(l, r, o)
  {
    hide WellFormed, SyntaxEqual, IsoPair, ClaimHolds, IsCandidate;
    forall x: nat | 0 < x && Mapped(o, x) ensures AnchoredBySome(l, r, o, x) {
      if Mapped(m, x) {
        assert AnchoredBySome(l, r, m, x);
        var q :| IsCandidate(l, r, q) && AnchoredBy(l, r, m, q, x);
        assert Mapped(m, q.0);
        assert AnchoredBy(l, r, o, q, x);
      } else {
        assert NewlyExact(l, r, o, p.0, p.1, x);
        assert AnchoredBy(l, r, o, p, x);
      }
    }
  }

  ghost predicate Progress(l: Tree, r: Tree, m: Mapping, candidates: seq<Pair>, n: nat)
    requires WellFormed(l) && WellFormed(r)
  {
    && n <= |candidates|
    && (forall j :: 0 <= j < n ==> Settled(l, r, m, candidates[j]))
    && (forall x: nat :: 0 < x && Mapped(m, x) ==> Anchored(l, r, m, candidates, n, x))
  }

  ghost predicate Settled(l: Tree, r: Tree, m: Mapping, p: Pair)
    requires WellFormed(l) && WellFormed(r)
  {
    p.0 < |l.nodes| && p.1 < |r.nodes| && SyntaxEqual(l, p.0, r, p.1) ==> MappedTo(m, p.0, p.1)
  }

  lemma {:induction false} SmallerBelow(t: Tree, root: nat, x: nat)
    requires WellFormed(t) && Nested(t) && InSubtree(t, root, x) && root < |t.nodes|
    ensures t.nodes[x].subtreeSize <= t.nodes[root].subtreeSize
    ensures x != root ==> t.nodes[x].subtreeSize < t.nodes[root].subtreeSize
    decreases x
  {
    if x != root {
      SubtreeStartsAtRoot(t, root, Parent(t, x));
      SmallerBelow(t, root, Parent(t, x));
    }
  }

  /** Below syntactically equal roots every after node has a counterpart. */
  lemma {:induction false} CounterpartBefore(l: Tree, r: Tree, b: nat, a: nat, y: nat) returns (x: nat)
    requires WellFormed(l) && WellFormed(r) && b < |l.nodes| && a < |r.nodes|
    requires SyntaxEqual(l, b, r, a) && InSubtree(r, a, y)
    ensures IsoPair(l, r, b, a, x, y)
    decreases y
  {
    if y == a {
      x := b;
    } else {
      var q := Parent(r, y);
      var p := CounterpartBefore(l, r, b, a, q);
      SyntaxEqualBelow(l, r, b, a, p, q);
      var k :| 0 <= k < |Children(r, q)| && Children(r, q)[k] == y;
      IsoPairChild(l, r, b, a, p, q, k);
      x := Children(l, p)[k];
    }
  }

  /** A candidate is the only pair of its key: an equal partner of either endpoint is the other endpoint. */
  lemma CandidateIsUnique(l: Tree, r: Tree, p: Pair, b: nat, a: nat)
    requires FaithfulDigests(l, r) && IsCandidate(l, r, p)
    requires 0 < b < |l.nodes| && 0 < a < |r.nodes| && SyntaxEqual(l, b, r, a) && (b == p.0 || a == p.1)
    ensures p == (b, a)
  {
    hide WellFormed;
    var befores, afters := AnchorIds(l, |l.nodes|), AnchorIds(r, |r.nodes|);
    UniquePairMembers(l, r, BySubtree, befores, afters, p);
    var key :| UniquelyKeyed(l, r, BySubtree, befores, afters, p, key);
    assert p.0 in WithKey(l, BySubtree, befores, key) && p.1 in WithKey(r, BySubtree, afters, key);
    assert KeyOf(l, BySubtree, b) == KeyOf(r, BySubtree, a);
    assert b in WithKey(l, BySubtree, befores, key) && a in WithKey(r, BySubtree, afters, key);
  }

  /** An earlier candidate that was mapped; both its endpoints are proper nodes. */
  ghost predicate EarlierAnchor(l: Tree, r: Tree, m: Mapping, p: Pair)
    requires WellFormed(l) && WellFormed(r)
  {
    && 0 < p.0 < |l.nodes| && 0 < p.1 < |r.nodes| && SyntaxEqual(l, p.0, r, p.1)
    && MappedTo(m, p.0, p.1) && Exact(m, p.0)
  }

  /** An earlier anchor does not lie below a later candidate, and the other way round the candidate would be mapped. */
  lemma AnchorAboveBefore(l: Tree, r: Tree, m: Mapping, p: Pair, q: Pair)
    requires FaithfulDigests(l, r) && Invariant(l, r, m) && EarlierAnchor(l, r, m, p) && IsCandidate(l, r, q)
    requires 0 < q.0 < |l.nodes| && 0 < q.1 < |r.nodes| && !MappedTo(m, q.0, q.1)
    ensures !InSubtree(l, p.0, q.0)
  {
    hide WellFormed, IsCandidate, Invariant, InSubtree;
    if InSubtree(l, p.0, q.0) {
      var e := CounterpartExists(l, r, p.0, p.1, q.0);
      AnchorCovers(l, r, m, p, q.0, e);
      CandidateIsUnique(l, r, q, q.0, e);
    }
  }

  lemma AnchorAboveAfter(l: Tree, r: Tree, m: Mapping, p: Pair, q: Pair)
    requires FaithfulDigests(l, r) && Invariant(l, r, m) && EarlierAnchor(l, r, m, p) && IsCandidate(l, r, q)
    requires 0 < q.0 < |l.nodes| && 0 < q.1 < |r.nodes| && !MappedTo(m, q.0, q.1)
    ensures !InSubtree(r, p.1, q.1)
  {
    hide WellFormed, IsCandidate, Invariant, InSubtree;
    if InSubtree(r, p.1, q.1) {
      var e := CounterpartBefore(l, r, p.0, p.1, q.1);
      AnchorCovers(l, r, m, p, e, q.1);
      CandidateIsUnique(l, r, q, e, q.1);
    }
  }

  /** A candidate not yet mapped has nothing mapped below it on either side. */
  lemma NothingBelow(l: Tree, r: Tree, m: Mapping, candidates: seq<Pair>, n: nat, x: nat)
    requires FaithfulDigests(l, r) && Invariant(l, r, m) && Progress(l, r, m, candidates, n) && n < |candidates|
    requires InOrder(l, r, candidates)
    requires 0 < candidates[n].0 < |l.nodes| && 0 < candidates[n].1 < |r.nodes|
    requires SyntaxEqual(l, candidates[n].0, r, candidates[n].1) && !MappedTo(m, candidates[n].0, candidates[n].1)
    requires 0 < x < |l.nodes| && Mapped(m, x)
    ensures !InSubtree(l, candidates[n].0, x) && !InSubtree(r, candidates[n].1, m.beforeToAfter[x].value)
  {
    hide WellFormed, IsCandidate, SyntaxEqual, Invariant, InSubtree, IsoPair;
    var b, a, y := candidates[n].0, candidates[n].1, m.beforeToAfter[x].value;
    assert Anchored(l, r, m, candidates, n, x);
    var j :| 0 <= j < n && AnchoredBy(l, r, m, candidates[j], x);
    var c, d := candidates[j].0, candidates[j].1;
    IsoPairInSubtrees(l, r, c, d, x, y);
    assert AnchorLe(l, candidates[j], candidates[n]);
    CandidateNonRoot(l, r, candidates[j]);
    AnchorAboveBefore(l, r, m, candidates[j], candidates[n]);
    AnchorAboveAfter(l, r, m, candidates[j], candidates[n]);
    if InSubtree(l, b, x) {
      SubtreesNest(l, b, c, x);
      SmallerBelow(l, b, c);
    }
    if InSubtree(r, a, y) {
      SubtreesNest(r, a, d, y);
      SmallerBelow(r, a, d);
    }
  }

  lemma CandidateNonRoot(l: Tree, r: Tree, p: Pair)
    requires WellFormed(l) && WellFormed(r) && IsCandidate(l, r, p)
    ensures 0 < p.0 < |l.nodes| && 0 < p.1 < |r.nodes|
  {
    hide WellFormed;
    UniquePairMembers(l, r, BySubtree, AnchorIds(l, |l.nodes|), AnchorIds(r, |r.nodes|), p);
  }

  lemma AnchorCovers(l: Tree, r: Tree, m: Mapping, p: Pair, x: nat, y: nat)
    requires Invariant(l, r, m) && 0 < p.0 < |l.nodes| && 0 < p.1 < |r.nodes|
    requires SyntaxEqual(l, p.0, r, p.1) && MappedTo(m, p.0, p.1) && Exact(m, p.0)
    requires IsoPair(l, r, p.0, p.1, x, y)
    ensures MappedTo(m, x, y) && 0 < x < |l.nodes| && 0 < y < |r.nodes| && SyntaxEqual(l, x, r, y)
  {
    ExactSubtreeMapped(l, r, m, p.0, x, y);
    SyntaxEqualBelow(l, r, p.0, p.1, x, y);
    IsoPairInSubtrees(l, r, p.0, p.1, x, y);
    SubtreeStartsAtRoot(l, p.0, x);
    SubtreeStartsAtRoot(r, p.1, y);
  }

  lemma {:induction false} FreeMeansMappable(l: Tree, r: Tree, m: Mapping, b: nat, a: nat)
    requires WellFormed(l) && WellFormed(r) && Sized(l, r, m) && b < |l.nodes| && a < |r.nodes|
    requires SyntaxEqual(l, b, r, a)
    requires forall x: nat :: InSubtree(l, b, x) ==> !Mapped(m, x)
    requires forall y: nat :: InSubtree(r, a, y) ==> !AfterMapped(m, y)
    ensures CanMapEqualSubtree(l, r, m, b, a)
    decreases |l.nodes| - b
  {
    assert InSubtree(l, b, b) && InSubtree(r, a, a);
    assert !Mapped(m, b) && !AfterMapped(m, a);
    forall k | 0 <= k < |Children(l, b)|
      ensures CanMapEqualSubtree(l, r, m, Children(l, b)[k], Children(r, a)[k])
    {
      forall x: nat | InSubtree(l, Children(l, b)[k], x) ensures !Mapped(m, x) {
        ChildInSubtree(l, b, Children(l, b)[k], x);
      }
      forall y: nat | InSubtree(r, Children(r, a)[k], y) ensures !AfterMapped(m, y) {
        ChildInSubtree(r, a, Children(r, a)[k], y);
      }
      FreeMeansMappable(l, r, m, Children(l, b)[k], Children(r, a)[k]);
    }
  }

  lemma CandidateMappable(l: Tree, r: Tree, m: Mapping, candidates: seq<Pair>, n: nat)
    requires FaithfulDigests(l, r) && Invariant(l, r, m) && Progress(l, r, m, candidates, n) && n < |candidates|
    requires InOrder(l, r, candidates)
    requires 0 < candidates[n].0 < |l.nodes| && 0 < candidates[n].1 < |r.nodes|
    requires SyntaxEqual(l, candidates[n].0, r, candidates[n].1) && !MappedTo(m, candidates[n].0, candidates[n].1)
    ensures Sized(l, r, m) && CanMapEqualSubtree(l, r, m, candidates[n].0, candidates[n].1)
  {
    hide WellFormed, IsCandidate, SyntaxEqual, AnchorLe, Progress, ExactBelow, ShapeAbove, ChildrenStay;
    var b, a := candidates[n].0, candidates[n].1;
    forall x: nat | InSubtree(l, b, x) ensures !Mapped(m, x) {
      SubtreeStartsAtRoot(l, b, x);
      if Mapped(m, x) {
        NothingBelow(l, r, m, candidates, n, x);
      }
    }
    forall y: nat | InSubtree(r, a, y) ensures !AfterMapped(m, y) {
      SubtreeStartsAtRoot(r, a, y);
      if AfterMapped(m, y) {
        NothingBelow(l, r, m, candidates, n, m.afterToBefore[y].value);
      }
    }
    FreeMeansMappable(l, r, m, b, a);
  }

  lemma ProgressStep(l: Tree, r: Tree, m: Mapping, o: Mapping, candidates: seq<Pair>, n: nat)
    requires Invariant(l, r, m) && Invariant(l, r, o) && Progress(l, r, m, candidates, n) && n < |candidates|
    requires ExactBeyondRoot(o)
    requires 0 < candidates[n].0 < |l.nodes| && 0 < candidates[n].1 < |r.nodes|
    requires SyntaxEqual(l, candidates[n].0, r, candidates[n].1)
    requires GrownBy(l, r, m, o, candidates[n].0, candidates[n].1)
    requires MappedTo(o, candidates[n].0, candidates[n].1)
    ensures Progress(l, r, o, candidates, n + 1)
  {
    InvariantParts(l, r, m);
    InvariantParts(l, r, o);
    StillAnchored(l, r, m, o, candidates, n);
    StillSettled(l, r, m, o, candidates, n);
  }

  lemma StillAnchored(l: Tree, r: Tree, m: Mapping, o: Mapping, candidates: seq<Pair>, n: nat)
    requires WellFormed(l) && WellFormed(r) && Sized(l, r, m) && Sized(l, r, o)
    requires Progress(l, r, m, candidates, n) && n < |candidates| && ExactBeyondRoot(o)
    requires 0 < candidates[n].0 < |l.nodes| && 0 < candidates[n].1 < |r.nodes|
    requires SyntaxEqual(l, candidates[n].0, r, candidates[n].1) && MappedTo(o, candidates[n].0, candidates[n].1)
    requires GrownBy(l, r, m, o, candidates[n].0, candidates[n].1)
    ensures forall x: nat :: 0 < x && Mapped(o, x) ==> Anchored(l, r, o, candidates, n + 1, x)
  {
    hide WellFormed, SyntaxEqual, IsoPair, ClaimHolds;
    forall x: nat | 0 < x && Mapped(o, x) ensures Anchored(l, r, o, candidates, n + 1, x) {
      if Mapped(m, x) {
        assert Anchored(l, r, m, candidates, n, x);
        var j :| 0 <= j < n && AnchoredBy(l, r, m, candidates[j], x);
        assert Mapped(m, candidates[j].0);
        assert AnchoredBy(l, r, o, candidates[j], x);
      } else {
        assert NewlyExact(l, r, o, candidates[n].0, candidates[n].1, x);
        assert AnchoredBy(l, r, o, candidates[n], x);
      }
    }
  }

  lemma StillSettled(l: Tree, r: Tree, m: Mapping, o: Mapping, candidates: seq<Pair>, n: nat)
    requires WellFormed(l) && WellFormed(r) && Sized(l, r, m) && Sized(l, r, o)
    requires Progress(l, r, m, candidates, n) && n < |candidates|
    requires 0 < candidates[n].0 < |l.nodes| && 0 < candidates[n].1 < |r.nodes|
    requires MappedTo(o, candidates[n].0, candidates[n].1)
    requires GrownBy(l, r, m, o, candidates[n].0, candidates[n].1)
    ensures forall j :: 0 <= j < n + 1 ==> Settled(l, r, o, candidates[j])
  {
    hide WellFormed, SyntaxEqual, NewlyExact, Anchored;
    forall j | 0 <= j < n + 1 ensures Settled(l, r, o, candidates[j]) {
      if j < n {
        assert Settled(l, r, m, candidates[j]);
      }
    }
  }

  // ----- the pass

  lemma PairsAreCandidates(l: Tree, r: Tree, pairs: seq<Pair>)
    requires WellFormed(l) && WellFormed(r)
    requires ValidIds(l, AnchorIds(l, |l.nodes|)) && ValidIds(r, AnchorIds(r, |r.nodes|))
    requires forall p :: p in pairs <==>
               UniquePair(l, r, BySubtree, AnchorIds(l, |l.nodes|), AnchorIds(r, |r.nodes|), p)
    ensures forall p :: p in pairs <==> IsCandidate(l, r, p)
  {
  }

  lemma AnchorOrder(l: Tree, le: (Pair, Pair) -> bool)
    requires forall p, q :: le(p, q) <==> AnchorLe(l, p, q)
    ensures Sorting.TotalPreorder(le)
  {
  }

  lemma CandidatesSorted(l: Tree, r: Tree, pairs: seq<Pair>, le: (Pair, Pair) -> bool)
    requires WellFormed(l) && WellFormed(r)
    requires forall p, q :: le(p, q) <==> AnchorLe(l, p, q)
    requires forall p :: p in pairs ==> IsCandidate(l, r, p)
    ensures InOrder(l, r, Sorting.Sort(le, pairs)) && forall p :: p in Sorting.Sort(le, pairs) <==> p in pairs
  {
    hide IsCandidate, WellFormed, AnchorLe, Sorting.Sort, Sorting.TotalPreorder;
    AnchorOrder(l, le);
    Sorting.SortSorted(le, pairs);
    var candidates := Sorting.Sort(le, pairs);
    forall p ensures p in candidates <==> p in pairs {
      assert p in candidates <==> p in multiset(candidates);
    }
    forall k | 0 <= k < |candidates| ensures IsCandidate(l, r, candidates[k]) {
      assert candidates[k] in candidates;
    }
  }

  lemma NoProgressYet(l: Tree, r: Tree, m: Mapping, candidates: seq<Pair>)
    requires WellFormed(l) && WellFormed(r) && forall x: nat :: 0 < x ==> !Mapped(m, x)
    ensures Progress(l, r, m, candidates, 0) && AnchorsOnly(l, r, m)
  {
  }

  lemma CandidateAt(l: Tree, r: Tree, candidates: seq<Pair>, n: nat)
    requires WellFormed(l) && WellFormed(r) && InOrder(l, r, candidates) && n < |candidates|
    ensures 0 < candidates[n].0 < |l.nodes| && 0 < candidates[n].1 < |r.nodes| && IsCandidate(l, r, candidates[n])
  {
    CandidateNonRoot(l, r, candidates[n]);
  }

  lemma CandidateSkipped(l: Tree, r: Tree, m: Mapping, candidates: seq<Pair>, n: nat)
    requires WellFormed(l) && WellFormed(r) && n < |candidates| && MappedTo(m, candidates[n].0, candidates[n].1)
    ensures Progress(l, r, m, candidates, n) ==> Progress(l, r, m, candidates, n + 1)
  {
    hide WellFormed, AnchoredBy;
    if Progress(l, r, m, candidates, n) {
      forall x: nat | 0 < x && Mapped(m, x) ensures Anchored(l, r, m, candidates, n + 1, x) {
        assert Anchored(l, r, m, candidates, n, x);
        var j :| 0 <= j < n && AnchoredBy(l, r, m, candidates[j], x);
      }
    }
  }

  lemma CandidateTried(l: Tree, r: Tree, m: Mapping, o: Mapping, candidates: seq<Pair>, n: nat, ok: bool)
    requires Invariant(l, r, m) && Sized(l, r, m) && ExactBeyondRoot(m) && n < |candidates|
    requires Consistent(l, r, o) && Sized(l, r, o)
    requires AnchorsOnly(l, r, m) && IsCandidate(l, r, candidates[n])
    requires 0 < candidates[n].0 < |l.nodes| && 0 < candidates[n].1 < |r.nodes|
    requires !MappedTo(m, candidates[n].0, candidates[n].1)
    requires ok <==> CanMapEqualSubtree(l, r, m, candidates[n].0, candidates[n].1) &&
                     SyntaxEqual(l, candidates[n].0, r, candidates[n].1)
    requires !ok ==> o == m
    requires ok ==> GrownBy(l, r, m, o, candidates[n].0, candidates[n].1) &&
                    AllIsoMapped(l, r, o, candidates[n].0, candidates[n].1)
    requires FaithfulDigests(l, r) ==> Progress(l, r, m, candidates, n)
    requires FaithfulDigests(l, r) && SyntaxEqual(l, candidates[n].0, r, candidates[n].1) ==> ok
    ensures Invariant(l, r, o) && ExactBeyondRoot(o) && AnchorsOnly(l, r, o)
    ensures FaithfulDigests(l, r) ==> Progress(l, r, o, candidates, n + 1)
  {
    hide *;
    InvariantParts(l, r, m);
    var b, a := candidates[n].0, candidates[n].1;
    if ok {
      AnchorKeepsInvariant(l, r, m, o, b, a);
      RootIsMapped(l, r, o, b, a);
      AnchorsOnlyKept(l, r, m, o, candidates[n]);
      if FaithfulDigests(l, r) {
        ProgressStep(l, r, m, o, candidates, n);
      }
    } else if FaithfulDigests(l, r) {
      CandidateUnequal(l, r, m, candidates, n);
    }
  }

  lemma RootIsMapped(l: Tree, r: Tree, m: Mapping, b: nat, a: nat)
    requires WellFormed(l) && WellFormed(r) && b < |l.nodes| && a < |r.nodes| && AllIsoMapped(l, r, m, b, a)
    ensures MappedTo(m, b, a)
  {
    assert IsoPair(l, r, b, a, b, a);
  }

  lemma CandidateUnequal(l: Tree, r: Tree, m: Mapping, candidates: seq<Pair>, n: nat)
    requires WellFormed(l) && WellFormed(r) && n < |candidates| && Progress(l, r, m, candidates, n)
    requires candidates[n].0 < |l.nodes| && candidates[n].1 < |r.nodes|
    requires !SyntaxEqual(l, candidates[n].0, r, candidates[n].1)
    ensures Progress(l, r, m, candidates, n + 1)
  {
    hide WellFormed, AnchoredBy, SyntaxEqual;
    forall x: nat | 0 < x && Mapped(m, x) ensures Anchored(l, r, m, candidates, n + 1, x) {
      assert Anchored(l, r, m, candidates, n, x);
      var j :| 0 <= j < n && AnchoredBy(l, r, m, candidates[j], x);
    }
  }

  lemma AllSettled(l: Tree, r: Tree, m: Mapping, pairs: seq<Pair>, candidates: seq<Pair>)
    requires WellFormed(l) && WellFormed(r) && Progress(l, r, m, candidates, |candidates|)
    requires forall p :: p in candidates <==> p in pairs
    requires forall p :: IsCandidate(l, r, p) ==> p in pairs
    ensures AllAnchorsMapped(l, r, m)
  {
    hide WellFormed, IsCandidate, SyntaxEqual;
    forall p: Pair | IsCandidate(l, r, p) && p.0 < |l.nodes| && p.1 < |r.nodes| && SyntaxEqual(l, p.0, r, p.1)
      ensures MappedTo(m, p.0, p.1)
    {
      assert p in candidates;
      var j :| 0 <= j < |candidates| && candidates[j] == p;
      assert Settled(l, r, m, candidates[j]);
    }
  }

  /** Nothing but identical subtrees that occur once on each side is mapped; where digests are faithful none of them is
      lost to an earlier one. */
  method AddGlobalExactAnchors(s: MappingState)
    requires Invariant(s.before, s.after, s.View()) && ExactBeyondRoot(s.View())
    requires forall x: nat :: 0 < x ==> !Mapped(s.View(), x)
    modifies s
    ensures Invariant(s.before, s.after, s.View()) && ExactBeyondRoot(s.View())
    ensures AnchorsOnly(s.before, s.after, s.View())
    ensures FaithfulDigests(s.before, s.after) ==> AllAnchorsMapped(s.before, s.after, s.View())
  {
    hide Invariant, WellFormed, Consistent, Sized, FaithfulDigests, Progress, InOrder, AllAnchorsMapped, SyntaxEqual;
    hide ExactBeyondRoot, CanMapEqualSubtree, GrownBy, AllIsoMapped, AnchorIds, ValidIds, UniquePair, IsCandidate;
    hide Sorting.Sort, AnchorsOnly;
    var l, r := s.before, s.after;
    InvariantParts(l, r, s.View());
    var befores, afters := AnchorIds(l, |l.nodes|), AnchorIds(r, |r.nodes|);
    AnchorIdsValid(l, |l.nodes|);
    AnchorIdsValid(r, |r.nodes|);
    var pairs := FindUniquePairs(l, r, BySubtree, befores, afters);
    PairsAreCandidates(l, r, pairs);
    var le := (p: Pair, q: Pair) => AnchorLe(l, p, q);
    var candidates := Sorting.Sort(le, pairs);
    CandidatesSorted(l, r, pairs, le);
    NoProgressYet(l, r, s.View(), candidates);
    for n := 0 to |candidates|
      invariant Invariant(l, r, s.View()) && ExactBeyondRoot(s.View()) && AnchorsOnly(l, r, s.View())
      invariant FaithfulDigests(l, r) ==> Progress(l, r, s.View(), candidates, n)
    {
      var (b, a) := candidates[n];
      ghost var m := s.View();
      InvariantParts(l, r, m);
      CandidateAt(l, r, candidates, n);
      if s.beforeToAfter[b] == Some(a) {
        CandidateSkipped(l, r, m, candidates, n);
        continue;
      }
      if FaithfulDigests(l, r) && SyntaxEqual(l, b, r, a) {
        CandidateMappable(l, r, m, candidates, n);
      }
      var ok := s.MapEqualSubtree(b, a);
      CandidateTried(l, r, m, s.View(), candidates, n, ok);
    }
    if FaithfulDigests(l, r) {
      AllSettled(l, r, s.View(), pairs, candidates);
    }
  }
}
