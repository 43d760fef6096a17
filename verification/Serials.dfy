/** Reading a subtree as one list of marks, and the two equalities as equality of that list. */
module Serials {
  import opened Wrappers
  import opened Syntax

  /** Kinds and leaf texts as they stand, or kinds by class and leaf texts only where the language has no grammar. */
  datatype Reading = Verbatim | ByClass

  datatype Mark =
    | NodeMark(kind: string, named: bool, extra: bool, missing: bool, arity: nat, text: Option<seq<Byte>>)
    | FieldMark(field: Option<string>)

  ghost predicate HasPart(s: string, part: string) {
    exists before, after :: s == before + part + after
  }

  ghost function ClassOf(kind: string): string {
    if HasPart(kind, "identifier") then "<identifier>"
    else if HasPart(kind, "string") then "<string>"
    else if HasPart(kind, "integer") then "<number>"
    else if HasPart(kind, "float") then "<number>"
    else if HasPart(kind, "number") then "<number>"
    else if HasPart(kind, "comment") then "<comment>"
    else kind
  }

  ghost function LeafText(t: Tree, reading: Reading, i: nat): Option<seq<Byte>>
    requires WellFormed(t) && i < |t.nodes|
  {
    if t.nodes[i].children != [] || (reading == ByClass && t.language.Grammar?) then None
    else Some(t.source[t.nodes[i].start..t.nodes[i].end])
  }

  ghost function MarkOf(t: Tree, reading: Reading, i: nat): Mark
    requires WellFormed(t) && i < |t.nodes|
  {
    var node := t.nodes[i];
    NodeMark(if reading == Verbatim then node.kind else ClassOf(node.kind), node.named, node.extra, node.missing,
             |node.children|, LeafText(t, reading, i))
  }

  /** The node, then each child with the field it fills, depth first. */
  ghost function Preorder(t: Tree, reading: Reading, i: nat): seq<Mark>
    requires WellFormed(t) && i < |t.nodes|
    decreases |t.nodes| - i, |t.nodes[i].children| + 1
  {
    [MarkOf(t, reading, i)] + ChildMarks(t, reading, i, 0)
  }

  ghost function ChildMarks(t: Tree, reading: Reading, i: nat, k: nat): seq<Mark>
    requires WellFormed(t) && i < |t.nodes| && k <= |t.nodes[i].children|
    decreases |t.nodes| - i, |t.nodes[i].children| - k
  {
    if k == |t.nodes[i].children| then []
    else
      var child := t.nodes[i].children[k];
      assert ChildOf(t, i, child);
      [FieldMark(t.nodes[child].field)] + Preorder(t, reading, child) + ChildMarks(t, reading, i, k + 1)
  }

  ghost predicate SameSerial(l: Tree, r: Tree, reading: Reading, i: nat, j: nat)
    requires WellFormed(l) && WellFormed(r) && i < |l.nodes| && j < |r.nodes|
  {
    l.language == r.language && Preorder(l, reading, i) == Preorder(r, reading, j)
  }

  // ----- one level

  ghost predicate Equal(l: Tree, r: Tree, reading: Reading, i: nat, j: nat)
    requires WellFormed(l) && WellFormed(r) && i < |l.nodes| && j < |r.nodes|
  {
    if reading == Verbatim then SyntaxEqual(l, i, r, j) else ShapeEqual(l, i, r, j)
  }

  ghost predicate ChildrenEqual(l: Tree, r: Tree, reading: Reading, i: nat, j: nat, from: nat)
    requires WellFormed(l) && WellFormed(r) && i < |l.nodes| && j < |r.nodes|
  {
    && |Children(l, i)| == |Children(r, j)|
    && forall k :: from <= k < |Children(l, i)| ==>
                     l.nodes[Children(l, i)[k]].field == r.nodes[Children(r, j)[k]].field &&
                     Equal(l, r, reading, Children(l, i)[k], Children(r, j)[k])
  }

  lemma ContainsPart(s: string, part: string)
    ensures Contains(s, part) <==> HasPart(s, part)
  {
    if Contains(s, part) {
      var i :| 0 <= i <= |s| && OccursAt(s, part, i);
      assert s == s[..i] + part + s[i + |part|..];
    }
    if HasPart(s, part) {
      var before, after :| s == before + part + after;
      assert OccursAt(s, part, |before|);
    }
  }

  lemma ClassIsNormalized(kind: string)
    ensures NormalizedKind(kind) == ClassOf(kind)
  {
    forall part: string {
      ContainsPart(kind, part);
    }
    hide Contains, HasPart;
  }

  lemma EqualUnfolds(l: Tree, r: Tree, reading: Reading, i: nat, j: nat)
    requires WellFormed(l) && WellFormed(r) && i < |l.nodes| && j < |r.nodes| && l.language == r.language
    ensures Equal(l, r, reading, i, j) <==>
            MarkOf(l, reading, i) == MarkOf(r, reading, j) && ChildrenEqual(l, r, reading, i, j, 0)
  {
    ClassIsNormalized(l.nodes[i].kind);
    ClassIsNormalized(r.nodes[j].kind);
    hide WellFormed, NormalizedKind, ClassOf;
  }

  // ----- equal subtrees read alike

  lemma {:induction false} EqualReadsAlike(l: Tree, r: Tree, reading: Reading, i: nat, j: nat)
    requires WellFormed(l) && WellFormed(r) && i < |l.nodes| && j < |r.nodes| && l.language == r.language
    requires Equal(l, r, reading, i, j)
    ensures Preorder(l, reading, i) == Preorder(r, reading, j)
    decreases |l.nodes| - i, |l.nodes[i].children| + 1
  {
    hide WellFormed, Equal, MarkOf;
    EqualUnfolds(l, r, reading, i, j);
    ChildrenReadAlike(l, r, reading, i, j, 0);
  }

  lemma {:induction false} ChildrenReadAlike(l: Tree, r: Tree, reading: Reading, i: nat, j: nat, k: nat)
    requires WellFormed(l) && WellFormed(r) && i < |l.nodes| && j < |r.nodes| && l.language == r.language
    requires ChildrenEqual(l, r, reading, i, j, k) && k <= |l.nodes[i].children|
    ensures |l.nodes[i].children| == |r.nodes[j].children|
    ensures ChildMarks(l, reading, i, k) == ChildMarks(r, reading, j, k)
    decreases |l.nodes| - i, |l.nodes[i].children| - k
  {
    hide WellFormed, Equal, Preorder;
    if k < |l.nodes[i].children| {
      EqualReadsAlike(l, r, reading, Children(l, i)[k], Children(r, j)[k]);
      ChildrenReadAlike(l, r, reading, i, j, k + 1);
    }
  }

  // ----- the marks can be read back in one way only

  lemma HeadAndTail<T>(x: T, s: seq<T>, y: T, t: seq<T>)
    requires [x] + s == [y] + t
    ensures x == y && s == t
  {
    assert x == ([x] + s)[0] == ([y] + t)[0] == y;
    assert s == ([x] + s)[1..] == ([y] + t)[1..] == t;
  }

  lemma {:induction false} ReadBack(l: Tree, r: Tree, reading: Reading, i: nat, j: nat, x: seq<Mark>, y: seq<Mark>)
    requires WellFormed(l) && WellFormed(r) && i < |l.nodes| && j < |r.nodes| && l.language == r.language
    requires Preorder(l, reading, i) + x == Preorder(r, reading, j) + y
    ensures x == y && Equal(l, r, reading, i, j)
    decreases |l.nodes| - i, |l.nodes[i].children| + 1
  {
    hide WellFormed, Equal, ChildMarks, ChildrenEqual;
    var s, t := ChildMarks(l, reading, i, 0), ChildMarks(r, reading, j, 0);
    assert Preorder(l, reading, i) + x == [MarkOf(l, reading, i)] + (s + x);
    assert Preorder(r, reading, j) + y == [MarkOf(r, reading, j)] + (t + y);
    HeadAndTail(MarkOf(l, reading, i), s + x, MarkOf(r, reading, j), t + y);
    ReadChildrenBack(l, r, reading, i, j, 0, x, y);
    EqualUnfolds(l, r, reading, i, j);
  }

  lemma {:induction false} ReadChildrenBack(l: Tree, r: Tree, reading: Reading, i: nat, j: nat, k: nat, x: seq<Mark>,
                                            y: seq<Mark>)
    requires WellFormed(l) && WellFormed(r) && i < |l.nodes| && j < |r.nodes| && l.language == r.language
    requires |l.nodes[i].children| == |r.nodes[j].children| && k <= |l.nodes[i].children|
    requires ChildMarks(l, reading, i, k) + x == ChildMarks(r, reading, j, k) + y
    ensures x == y && ChildrenEqual(l, r, reading, i, j, k)
    decreases |l.nodes| - i, |l.nodes[i].children| - k
  {
    hide WellFormed, Equal, Preorder;
    if k < |l.nodes[i].children| {
      var c, d := Children(l, i)[k], Children(r, j)[k];
      var s, t := ChildMarks(l, reading, i, k + 1), ChildMarks(r, reading, j, k + 1);
      var p, q := Preorder(l, reading, c), Preorder(r, reading, d);
      assert ChildMarks(l, reading, i, k) + x == [FieldMark(l.nodes[c].field)] + (p + (s + x));
      assert ChildMarks(r, reading, j, k) + y == [FieldMark(r.nodes[d].field)] + (q + (t + y));
      HeadAndTail(FieldMark(l.nodes[c].field), p + (s + x), FieldMark(r.nodes[d].field), q + (t + y));
      ReadBack(l, r, reading, c, d, s + x, t + y);
      ReadChildrenBack(l, r, reading, i, j, k + 1, x, y);
    } else {
      assert ChildMarks(l, reading, i, k) + x == x && ChildMarks(r, reading, j, k) + y == y;
    }
  }

  // ----- the two equalities

  lemma EqualExactly(l: Tree, r: Tree, reading: Reading, i: nat, j: nat)
    requires WellFormed(l) && WellFormed(r) && i < |l.nodes| && j < |r.nodes| && l.language == r.language
    ensures Equal(l, r, reading, i, j) <==> Preorder(l, reading, i) == Preorder(r, reading, j)
  {
    hide WellFormed, Equal, Preorder;
    if Equal(l, r, reading, i, j) {
      EqualReadsAlike(l, r, reading, i, j);
    }
    if Preorder(l, reading, i) == Preorder(r, reading, j) {
      ReadBack(l, r, reading, i, j, [], []);
    }
  }

  /** Syntactic equality: one language, and the same kinds, flags, arities, fields and leaf texts in preorder. */
  lemma SyntaxExactly(l: Tree, i: nat, r: Tree, j: nat)
    requires WellFormed(l) && WellFormed(r) && i < |l.nodes| && j < |r.nodes|
    ensures SyntaxEqual(l, i, r, j) <==> SameSerial(l, r, Verbatim, i, j)
  {
    if l.language == r.language {
      EqualExactly(l, r, Verbatim, i, j);
    }
  }

  /** Shape equality: the same with kinds by class, and leaf texts only in files without a grammar. */
  lemma ShapeExactly(l: Tree, i: nat, r: Tree, j: nat)
    requires WellFormed(l) && WellFormed(r) && i < |l.nodes| && j < |r.nodes|
    ensures ShapeEqual(l, i, r, j) <==> SameSerial(l, r, ByClass, i, j)
  {
    if l.language == r.language {
      EqualExactly(l, r, ByClass, i, j);
    }
  }
}
