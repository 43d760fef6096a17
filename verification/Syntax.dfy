/** Parsed syntax trees and the two recursive equalities that verify every hash hit. */
module Syntax {
  import opened Wrappers

  type Byte = bv8

  /** A digest; equal inputs have equal digests, and unequal inputs may collide. */
  type Hash = int

  datatype Language = Universal | Grammar(name: string)

  datatype Node = Node(kind: string, named: bool, extra: bool, missing: bool, field: Option<string>,
                       start: nat, end: nat, parent: Option<nat>, children: seq<nat>, subtreeSize: nat,
                       byteHash: Hash, syntaxHash: Hash, shapeHash: Hash)

  /** A node's id is its position; the parser numbers a node before its children, so the root is 0. */
  datatype Tree = Tree(source: seq<Byte>, nodes: seq<Node>, language: Language)

  ghost predicate ChildOf(t: Tree, p: nat, c: nat) {
    p < c < |t.nodes| && t.nodes[c].parent == Some(p)
  }

  ghost predicate WellFormed(t: Tree) {
    && |t.nodes| > 0 && t.nodes[0].parent.None?
    && (forall i :: 0 <= i < |t.nodes| ==> t.nodes[i].start <= t.nodes[i].end <= |t.source|)
    && (forall i, k :: 0 <= i < |t.nodes| && 0 <= k < |t.nodes[i].children| ==> ChildOf(t, i, t.nodes[i].children[k]))
    && (forall i, k, l :: 0 <= i < |t.nodes| && 0 <= k < l < |t.nodes[i].children| ==>
                            t.nodes[i].children[k] != t.nodes[i].children[l])
    && (forall c :: 0 < c < |t.nodes| ==> t.nodes[c].parent.Some? && t.nodes[c].parent.value < c &&
                                          c in t.nodes[t.nodes[c].parent.value].children)
  }

  function Children(t: Tree, i: nat): (r: seq<nat>)
    requires WellFormed(t) && i < |t.nodes|
    ensures forall k :: 0 <= k < |r| ==> i < r[k] < |t.nodes| && ChildOf(t, i, r[k])
    ensures forall k, l :: 0 <= k < l < |r| ==> r[k] != r[l]
  {
    t.nodes[i].children
  }

  function Parent(t: Tree, x: nat): (p: nat)
    requires WellFormed(t) && 0 < x < |t.nodes|
    ensures p < x && t.nodes[x].parent == Some(p) && x in Children(t, p)
  {
    t.nodes[x].parent.value
  }

  lemma ChildHasParent(t: Tree, p: nat, k: nat)
    requires WellFormed(t) && p < |t.nodes| && k < |Children(t, p)|
    ensures Parent(t, Children(t, p)[k]) == p
  {
    assert ChildOf(t, p, Children(t, p)[k]);
  }

  function Text(t: Tree, i: nat): seq<Byte>
    requires WellFormed(t) && i < |t.nodes|
  {
    t.source[t.nodes[i].start..t.nodes[i].end]
  }

  predicate OccursAt(s: string, part: string, i: int) {
    0 <= i <= |s| - |part| && s[i..i + |part|] == part
  }

  predicate Contains(s: string, part: string) {
    exists i :: 0 <= i <= |s| && OccursAt(s, part, i)
  }

  function NormalizedKind(kind: string): string {
    if Contains(kind, "identifier") then "<identifier>"
    else if Contains(kind, "string") then "<string>"
    else if Contains(kind, "integer") || Contains(kind, "float") || Contains(kind, "number") then "<number>"
    else if Contains(kind, "comment") then "<comment>"
    else kind
  }

  predicate SameFlags(a: Node, b: Node) {
    a.named == b.named && a.extra == b.extra && a.missing == b.missing
  }

  predicate SyntaxEqual(l: Tree, i: nat, r: Tree, j: nat)
    requires WellFormed(l) && WellFormed(r) && i < |l.nodes| && j < |r.nodes|
    decreases |l.nodes| - i
  {
    var a, b := l.nodes[i], r.nodes[j];
    && l.language == r.language && a.kind == b.kind && SameFlags(a, b)
    && |Children(l, i)| == |Children(r, j)|
    && if Children(l, i) == [] then Text(l, i) == Text(r, j)
       else forall k :: 0 <= k < |Children(l, i)| ==>
                          l.nodes[Children(l, i)[k]].field == r.nodes[Children(r, j)[k]].field &&
                          SyntaxEqual(l, Children(l, i)[k], r, Children(r, j)[k])
  }

  predicate ShapeEqual(l: Tree, i: nat, r: Tree, j: nat)
    requires WellFormed(l) && WellFormed(r) && i < |l.nodes| && j < |r.nodes|
    decreases |l.nodes| - i
  {
    var a, b := l.nodes[i], r.nodes[j];
    && l.language == r.language && NormalizedKind(a.kind) == NormalizedKind(b.kind) && SameFlags(a, b)
    && |Children(l, i)| == |Children(r, j)|
    && if l.language == Universal && Children(l, i) == [] then Text(l, i) == Text(r, j)
       else forall k :: 0 <= k < |Children(l, i)| ==>
                          l.nodes[Children(l, i)[k]].field == r.nodes[Children(r, j)[k]].field &&
                          ShapeEqual(l, Children(l, i)[k], r, Children(r, j)[k])
  }

  // ----- shape equality is an equivalence across trees

  lemma {:induction false} ShapeReflexive(t: Tree, i: nat)
    requires WellFormed(t) && i < |t.nodes|
    ensures ShapeEqual(t, i, t, i)
    decreases |t.nodes| - i
  {
    forall k | 0 <= k < |Children(t, i)| ensures ShapeEqual(t, Children(t, i)[k], t, Children(t, i)[k]) {
      ShapeReflexive(t, Children(t, i)[k]);
    }
  }

  lemma {:induction false} ShapeSymmetric(l: Tree, i: nat, r: Tree, j: nat)
    requires WellFormed(l) && WellFormed(r) && i < |l.nodes| && j < |r.nodes|
    requires ShapeEqual(l, i, r, j)
    ensures ShapeEqual(r, j, l, i)
    decreases |l.nodes| - i
  {
    if !(l.language == Universal && Children(l, i) == []) {
      forall k | 0 <= k < |Children(l, i)| ensures ShapeEqual(r, Children(r, j)[k], l, Children(l, i)[k]) {
        ShapeSymmetric(l, Children(l, i)[k], r, Children(r, j)[k]);
      }
    }
  }

  lemma {:induction false} ShapeTransitive(l: Tree, i: nat, m: Tree, h: nat, r: Tree, j: nat)
    requires WellFormed(l) && WellFormed(m) && WellFormed(r) && i < |l.nodes| && h < |m.nodes| && j < |r.nodes|
    requires ShapeEqual(l, i, m, h) && ShapeEqual(m, h, r, j)
    ensures ShapeEqual(l, i, r, j)
    decreases |l.nodes| - i
  {
    if !(l.language == Universal && Children(l, i) == []) {
      forall k | 0 <= k < |Children(l, i)|
        ensures l.nodes[Children(l, i)[k]].field == r.nodes[Children(r, j)[k]].field
        ensures ShapeEqual(l, Children(l, i)[k], r, Children(r, j)[k])
      {
        ShapeTransitive(l, Children(l, i)[k], m, Children(m, h)[k], r, Children(r, j)[k]);
      }
    }
  }

  // ----- subtrees

  /** x is r or a descendant of r. */
  ghost predicate InSubtree(t: Tree, r: nat, x: nat)
    requires WellFormed(t)
    decreases x
  {
    x < |t.nodes| && (x == r || (x != 0 && InSubtree(t, r, Parent(t, x))))
  }

  lemma {:induction false} SubtreeStartsAtRoot(t: Tree, r: nat, x: nat)
    requires WellFormed(t) && InSubtree(t, r, x)
    ensures r <= x
    decreases x
  {
    if x != r {
      SubtreeStartsAtRoot(t, r, Parent(t, x));
    }
  }

  lemma {:induction false} SubtreeTransitive(t: Tree, r: nat, x: nat, y: nat)
    requires WellFormed(t) && InSubtree(t, r, x) && InSubtree(t, x, y)
    ensures InSubtree(t, r, y)
    decreases y
  {
    if y != x {
      SubtreeTransitive(t, r, x, Parent(t, y));
    }
  }

  /** Everything lies below the root of the tree. */
  lemma {:induction false} SubtreeOfRoot(t: Tree, x: nat)
    requires WellFormed(t) && x < |t.nodes|
    ensures InSubtree(t, 0, x)
    decreases x
  {
    if x != 0 {
      SubtreeOfRoot(t, Parent(t, x));
    }
  }

  /** Two subtrees that share a node are nested. */
  lemma {:induction false} SubtreesNest(t: Tree, r: nat, s: nat, x: nat)
    requires WellFormed(t) && InSubtree(t, r, x) && InSubtree(t, s, x)
    ensures InSubtree(t, r, s) || InSubtree(t, s, r)
    decreases x
  {
    if x != r && x != s {
      SubtreesNest(t, r, s, Parent(t, x));
    }
  }

  /** The subtrees of two children of one node are disjoint. */
  lemma SiblingsDisjoint(t: Tree, p: nat, c: nat, d: nat, x: nat)
    requires WellFormed(t) && ChildOf(t, p, c) && ChildOf(t, p, d) && c != d
    requires InSubtree(t, c, x)
    ensures !InSubtree(t, d, x)
  {
    if InSubtree(t, d, x) {
      SubtreesNest(t, c, d, x);
      if InSubtree(t, c, d) {
        SubtreeStartsAtRoot(t, c, p);
      } else {
        SubtreeStartsAtRoot(t, d, p);
      }
    }
  }

  /** A proper descendant lies below exactly one child. */
  lemma {:induction false} BelowSomeChild(t: Tree, r: nat, x: nat) returns (k: nat)
    requires WellFormed(t) && r < |t.nodes| && InSubtree(t, r, x) && x != r
    ensures k < |Children(t, r)| && InSubtree(t, Children(t, r)[k], x)
    decreases x
  {
    var p := Parent(t, x);
    if p == r {
      k :| 0 <= k < |Children(t, r)| && Children(t, r)[k] == x;
    } else {
      k := BelowSomeChild(t, r, p);
    }
  }

  lemma ChildInSubtree(t: Tree, r: nat, c: nat, x: nat)
    requires WellFormed(t) && r < |t.nodes| && c in Children(t, r) && InSubtree(t, c, x)
    ensures InSubtree(t, r, x)
  {
    assert InSubtree(t, r, c);
    SubtreeTransitive(t, r, c, x);
  }
}
