/** The change list derived from a finished mapping. */
module Changes {
  import opened Wrappers
  import opened Syntax
  import opened Serials
  import opened Mappings
  import Sorting
  import Uniqueness

  const USIZE_MAX: nat := 0xFFFF_FFFF_FFFF_FFFF

  datatype ChangeKind =
    | Insert | Delete | EquivalentRelocation | ChildOrderChanged | ModelForcedUpdate | SuggestedUpdate | FormattingOnly

  datatype Change = Change(kind: ChangeKind, before: Option<nat>, after: Option<nat>)

  // ----- what each kind of change means

  predicate IsFormattingOnly(l: Tree, r: Tree, c: Change)
    requires WellFormed(l) && WellFormed(r)
  {
    c == Change(FormattingOnly, Some(0), Some(0)) && SyntaxEqual(l, 0, r, 0) && l.source != r.source
  }

  /** The children at places i and j of p are mapped to children of q that stand the other way round. */
  ghost predicate Inverted(l: Tree, r: Tree, m: Mapping, p: nat, q: nat, i: nat, j: nat, x: nat, y: nat)
    requires WellFormed(l) && WellFormed(r) && p < |l.nodes| && q < |r.nodes|
  {
    && i < j < |Children(l, p)| && x < |Children(r, q)| && y < x
    && MappedTo(m, Children(l, p)[i], Children(r, q)[x]) && MappedTo(m, Children(l, p)[j], Children(r, q)[y])
  }

  ghost predicate OutOfOrder(l: Tree, r: Tree, m: Mapping, p: nat, q: nat)
    requires WellFormed(l) && WellFormed(r) && p < |l.nodes| && q < |r.nodes|
  {
    exists i, j, x, y :: Inverted(l, r, m, p, q, i, j, x, y)
  }

  ghost predicate IsOrderChange(l: Tree, r: Tree, m: Mapping, c: Change)
    requires WellFormed(l) && WellFormed(r)
  {
    && c.kind == ChildOrderChanged && c.before.Some? && c.after.Some?
    && c.before.value < |l.nodes| && c.after.value < |r.nodes|
    && MappedTo(m, c.before.value, c.after.value) && OutOfOrder(l, r, m, c.before.value, c.after.value)
  }

  /** An exact pair whose before parent is mapped elsewhere than to its after parent. */
  predicate Relocated(l: Tree, r: Tree, m: Mapping, b: nat, a: nat)
    requires WellFormed(l) && WellFormed(r) && 0 < b < |l.nodes| && a < |r.nodes|
  {
    && Exact(m, b) && a != 0 && Mapped(m, Parent(l, b))
    && m.beforeToAfter[Parent(l, b)] != Some(Parent(r, a))
  }

  predicate ByShape(m: Mapping, b: nat) {
    b < |m.facts| && m.facts[b].Some? && m.facts[b].value.claim == ShapeEqualPair
  }

  /** A shape pair of different syntax that does not hang below another shape pair. */
  predicate Updated(l: Tree, r: Tree, m: Mapping, b: nat, a: nat)
    requires WellFormed(l) && WellFormed(r) && 0 < b < |l.nodes| && a < |r.nodes|
  {
    ByShape(m, b) && !SyntaxEqual(l, b, r, a) && !ByShape(m, Parent(l, b))
  }

  ghost predicate IsNodeChange(l: Tree, r: Tree, m: Mapping, c: Change)
    requires WellFormed(l) && WellFormed(r)
  {
    && c.before.Some? && c.after.Some? && 0 < c.before.value < |l.nodes| && c.after.value < |r.nodes|
    && var b, a := c.before.value, c.after.value;
       && MappedTo(m, b, a)
       && match c.kind
          case EquivalentRelocation => Relocated(l, r, m, b, a)
          case ModelForcedUpdate => Updated(l, r, m, b, a) && m.facts[b].value.correspondence == ModelForced
          case SuggestedUpdate => Updated(l, r, m, b, a) && m.facts[b].value.correspondence == Suggested
          case _ => false
  }

  /** An unmapped, unambiguous node just below a mapped one. */
  ghost predicate IsDelete(l: Tree, m: Mapping, ambiguous: set<nat>, c: Change)
    requires WellFormed(l)
  {
    && c.kind == Delete && c.before.Some? && c.after.None? && 0 < c.before.value < |l.nodes|
    && !Mapped(m, c.before.value) && c.before.value !in ambiguous && Mapped(m, Parent(l, c.before.value))
  }

  ghost predicate IsInsert(r: Tree, m: Mapping, ambiguous: set<nat>, c: Change)
    requires WellFormed(r)
  {
    && c.kind == Insert && c.before.None? && c.after.Some? && 0 < c.after.value < |r.nodes|
    && !AfterMapped(m, c.after.value) && c.after.value !in ambiguous && AfterMapped(m, Parent(r, c.after.value))
  }

  ghost predicate IsChange(l: Tree, r: Tree, m: Mapping, ambiguousBefore: set<nat>, ambiguousAfter: set<nat>, c: Change)
    requires WellFormed(l) && WellFormed(r)
  {
    || IsFormattingOnly(l, r, c) || IsOrderChange(l, r, m, c) || IsNodeChange(l, r, m, c)
    || IsDelete(l, m, ambiguousBefore, c) || IsInsert(r, m, ambiguousAfter, c)
  }

  ghost predicate NoRepeats(changes: seq<Change>) {
    forall i, j :: 0 <= i < j < |changes| ==> changes[i] != changes[j]
  }

  lemma NoRepeatsSnoc(changes: seq<Change>, c: Change)
    requires NoRepeats(changes) && c !in changes
    ensures NoRepeats(changes + [c])
    ensures forall d :: d in changes + [c] <==> d in changes || d == c
  {
  }

  // ----- what each change tells, by the fields of the trees and of the mapping

  const IDENTICAL: set<Option<Fact>> := {Some(Fact(ByteEqual, ModelForced)), Some(Fact(SyntaxEqualPair, ModelForced))}

  ghost predicate Paired(m: Mapping, b: nat, a: nat) {
    b < |m.beforeToAfter| && m.beforeToAfter[b] == Some(a)
  }

  /** Some two children of b are mapped to children of a that stand the other way round. */
  ghost predicate TellsOrder(l: Tree, r: Tree, m: Mapping, b: nat, a: nat) {
    && b < |l.nodes| && a < |r.nodes| && Paired(m, b, a)
    && exists i, j, x, y :: TurnedRound(m, l.nodes[b].children, r.nodes[a].children, i, j, x, y)
  }

  ghost predicate TurnedRound(m: Mapping, bc: seq<nat>, ac: seq<nat>, i: nat, j: nat, x: nat, y: nat) {
    i < j < |bc| && y < x < |ac| && Paired(m, bc[i], ac[x]) && Paired(m, bc[j], ac[y])
  }

  /** The pair is identical, and b's parent is mapped, but not to a's parent. */
  ghost predicate TellsRelocation(l: Tree, r: Tree, m: Mapping, b: nat, a: nat) {
    && 0 < b < |l.nodes| && 0 < a < |r.nodes| && Paired(m, b, a)
    && b < |m.facts| && m.facts[b] in IDENTICAL
    && l.nodes[b].parent.Some? && l.nodes[b].parent.value < |m.beforeToAfter|
    && m.beforeToAfter[l.nodes[b].parent.value].Some?
    && m.beforeToAfter[l.nodes[b].parent.value] != r.nodes[a].parent
  }

  /** The pair has equal shape but not one serial, and no shape pair hangs it. */
  ghost predicate TellsUpdate(l: Tree, r: Tree, m: Mapping, b: nat, a: nat, correspondence: Correspondence)
    requires WellFormed(l) && WellFormed(r)
  {
    && 0 < b < |l.nodes| && a < |r.nodes| && Paired(m, b, a)
    && b < |m.facts| && m.facts[b] == Some(Fact(ShapeEqualPair, correspondence))
    && !SameSerial(l, r, Verbatim, b, a)
    && l.nodes[b].parent.Some?
    && forall c :: l.nodes[b].parent.value < |m.facts| ==>
                     m.facts[l.nodes[b].parent.value] != Some(Fact(ShapeEqualPair, c))
  }

  /** A node without counterpart and in no ambiguity, whose parent has a counterpart. */
  ghost predicate TellsLoss(t: Tree, counterparts: seq<Option<nat>>, ambiguous: set<nat>, id: nat) {
    && 0 < id < |t.nodes| && id < |counterparts| && counterparts[id] == None && id !in ambiguous
    && t.nodes[id].parent.Some? && t.nodes[id].parent.value < |counterparts|
    && counterparts[t.nodes[id].parent.value] != None
  }

  /** Formatting only: the two files read as one serial but differ in their bytes. */
  ghost predicate Tells(l: Tree, r: Tree, m: Mapping, ambiguousBefore: set<nat>, ambiguousAfter: set<nat>, c: Change)
    requires WellFormed(l) && WellFormed(r)
  {
    match c
    case Change(FormattingOnly, Some(b), Some(a)) =>
      b == 0 && a == 0 && SameSerial(l, r, Verbatim, 0, 0) && l.source != r.source
    case Change(ChildOrderChanged, Some(b), Some(a)) => TellsOrder(l, r, m, b, a)
    case Change(EquivalentRelocation, Some(b), Some(a)) => TellsRelocation(l, r, m, b, a)
    case Change(ModelForcedUpdate, Some(b), Some(a)) => TellsUpdate(l, r, m, b, a, ModelForced)
    case Change(SuggestedUpdate, Some(b), Some(a)) => TellsUpdate(l, r, m, b, a, Suggested)
    case Change(Delete, Some(b), None) => TellsLoss(l, m.beforeToAfter, ambiguousBefore, b)
    case Change(Insert, None, Some(a)) => TellsLoss(r, m.afterToBefore, ambiguousAfter, a)
    case _ => false
  }

  lemma FormattingTells(l: Tree, r: Tree, c: Change)
    requires WellFormed(l) && WellFormed(r)
    ensures IsFormattingOnly(l, r, c) <==>
            && c == Change(FormattingOnly, Some(0), Some(0)) && SameSerial(l, r, Verbatim, 0, 0)
            && l.source != r.source
  {
    hide SyntaxEqual, SameSerial;
    SyntaxExactly(l, 0, r, 0);
  }

  lemma OrderTells(l: Tree, r: Tree, m: Mapping, c: Change)
    requires WellFormed(l) && WellFormed(r)
    ensures IsOrderChange(l, r, m, c) <==>
            && c.kind == ChildOrderChanged && c.before.Some? && c.after.Some?
            && TellsOrder(l, r, m, c.before.value, c.after.value)
  {
    hide WellFormed;
    if c.before.Some? && c.after.Some? && c.before.value < |l.nodes| && c.after.value < |r.nodes| {
      var b, a := c.before.value, c.after.value;
      forall i: nat, j: nat, x: nat, y: nat
        ensures Inverted(l, r, m, b, a, i, j, x, y) <==>
                TurnedRound(m, l.nodes[b].children, r.nodes[a].children, i, j, x, y)
      {
      }
    }
  }

  lemma RelocationTells(l: Tree, r: Tree, m: Mapping, b: nat, a: nat)
    requires WellFormed(l) && WellFormed(r) && Sized(l, r, m) && 0 < b < |l.nodes| && a < |r.nodes|
    ensures MappedTo(m, b, a) && Relocated(l, r, m, b, a) <==> TellsRelocation(l, r, m, b, a)
  {
    hide WellFormed;
    HasParent(l, b);
    if a > 0 {
      HasParent(r, a);
    }
  }

  lemma HasParent(t: Tree, x: nat)
    requires WellFormed(t) && 0 < x < |t.nodes|
    ensures t.nodes[x].parent == Some(Parent(t, x)) && Parent(t, x) < |t.nodes|
  {
  }

  lemma UpdateTells(l: Tree, r: Tree, m: Mapping, b: nat, a: nat, correspondence: Correspondence)
    requires WellFormed(l) && WellFormed(r) && Sized(l, r, m) && 0 < b < |l.nodes| && a < |r.nodes|
    ensures MappedTo(m, b, a) && Updated(l, r, m, b, a) && m.facts[b].value.correspondence == correspondence <==>
            TellsUpdate(l, r, m, b, a, correspondence)
  {
    hide WellFormed, SyntaxEqual, SameSerial;
    SyntaxExactly(l, b, r, a);
    HasParent(l, b);
    var p := m.facts[Parent(l, b)];
    assert ByShape(m, Parent(l, b)) <==> exists c :: p == Some(Fact(ShapeEqualPair, c)) by {
      if p.Some? && p.value.claim == ShapeEqualPair {
        assert p == Some(Fact(ShapeEqualPair, p.value.correspondence));
      }
    }
  }

  /** The changes, by the fields of the trees and of the mapping. */
  lemma TellsExactly(l: Tree, r: Tree, m: Mapping, ambiguousBefore: set<nat>, ambiguousAfter: set<nat>, c: Change)
    requires WellFormed(l) && WellFormed(r) && Sized(l, r, m)
    ensures IsChange(l, r, m, ambiguousBefore, ambiguousAfter, c) <==>
            Tells(l, r, m, ambiguousBefore, ambiguousAfter, c)
  {
    FormattingTells(l, r, c);
    OrderTells(l, r, m, c);
    if c.before.Some? && c.after.Some? && 0 < c.before.value < |l.nodes| && c.after.value < |r.nodes| {
      RelocationTells(l, r, m, c.before.value, c.after.value);
      UpdateTells(l, r, m, c.before.value, c.after.value, ModelForced);
      UpdateTells(l, r, m, c.before.value, c.after.value, Suggested);
    }
    LossTells(l, r, m, ambiguousBefore, ambiguousAfter, c);
    hide IsFormattingOnly, IsOrderChange, IsDelete, IsInsert, Relocated, Updated, SameSerial, WellFormed;
    hide TellsOrder, TellsRelocation, TellsUpdate, TellsLoss;
  }

  lemma LossTells(l: Tree, r: Tree, m: Mapping, ambiguousBefore: set<nat>, ambiguousAfter: set<nat>, c: Change)
    requires WellFormed(l) && WellFormed(r) && Sized(l, r, m)
    ensures IsDelete(l, m, ambiguousBefore, c) <==>
            && c.kind == Delete && c.before.Some? && c.after.None?
            && TellsLoss(l, m.beforeToAfter, ambiguousBefore, c.before.value)
    ensures IsInsert(r, m, ambiguousAfter, c) <==>
            && c.kind == Insert && c.before.None? && c.after.Some?
            && TellsLoss(r, m.afterToBefore, ambiguousAfter, c.after.value)
  {
    hide WellFormed;
    if c.before.Some? && 0 < c.before.value < |l.nodes| {
      HasParent(l, c.before.value);
    }
    if c.after.Some? && 0 < c.after.value < |r.nodes| {
      HasParent(r, c.after.value);
    }
  }

  // ----- the order of the list

  /** A missing id comes after every id that fits a machine word. */
  ghost predicate IdBelow(x: Option<nat>, y: Option<nat>) {
    x.Some? && (y.None? || x.value < y.value)
  }

  ghost predicate ListedBefore(c: Change, d: Change) {
    var kinds :=
      [Insert, Delete, EquivalentRelocation, ChildOrderChanged, ModelForcedUpdate, SuggestedUpdate, FormattingOnly];
    || IdBelow(c.before, d.before)
    || (c.before == d.before &&
        (|| IdBelow(c.after, d.after)
         || (c.after == d.after && exists i, j :: 0 <= i < j < |kinds| && c.kind == kinds[i] && d.kind == kinds[j])))
  }

  // ----- order changes

  /** The after positions of the children of p that are mapped to children of q, in before order; `places` are the
      before positions. */
  ghost predicate Positions(l: Tree, r: Tree, m: Mapping, p: nat, q: nat, n: nat, positions: seq<nat>, places: seq<nat>)
    requires WellFormed(l) && WellFormed(r) && p < |l.nodes| && q < |r.nodes|
  {
    && n <= |Children(l, p)| && |positions| == |places|
    && (forall k :: 0 <= k < |places| ==> places[k] < n && positions[k] < |Children(r, q)| &&
                                          MappedTo(m, Children(l, p)[places[k]], Children(r, q)[positions[k]]))
    && (forall j, k :: 0 <= j < k < |places| ==> places[j] < places[k])
    && (forall i, x :: 0 <= i < n && 0 <= x < |Children(r, q)| && MappedTo(m, Children(l, p)[i], Children(r, q)[x]) ==>
                         i in places)
  }

  predicate AdjacentDrop(positions: seq<nat>) {
    exists k :: 0 < k < |positions| && positions[k - 1] > positions[k]
  }

  /** Looking at neighbours is enough: without an adjacent drop the positions increase throughout. */
  lemma {:induction false} NoDropIncreases(positions: seq<nat>, j: nat, k: nat)
    requires !AdjacentDrop(positions) && j <= k < |positions|
    ensures positions[j] <= positions[k]
    decreases k
  {
    if j < k {
      NoDropIncreases(positions, j, k - 1);
      assert !(positions[k - 1] > positions[k]);
    }
  }

  lemma DropIsInverted(l: Tree, r: Tree, m: Mapping, p: nat, q: nat, positions: seq<nat>, places: seq<nat>)
    requires WellFormed(l) && WellFormed(r) && p < |l.nodes| && q < |r.nodes|
    requires Positions(l, r, m, p, q, |Children(l, p)|, positions, places) && AdjacentDrop(positions)
    ensures OutOfOrder(l, r, m, p, q)
  {
    hide WellFormed, MappedTo;
    var k :| 0 < k < |positions| && positions[k - 1] > positions[k];
    assert Inverted(l, r, m, p, q, places[k - 1], places[k], positions[k - 1], positions[k]);
  }

  lemma InvertedIsDrop(l: Tree, r: Tree, m: Mapping, p: nat, q: nat, positions: seq<nat>, places: seq<nat>,
                       i: nat, j: nat, x: nat, y: nat)
    requires WellFormed(l) && WellFormed(r) && p < |l.nodes| && q < |r.nodes|
    requires Positions(l, r, m, p, q, |Children(l, p)|, positions, places) && Inverted(l, r, m, p, q, i, j, x, y)
    ensures AdjacentDrop(positions)
  {
    hide WellFormed, AdjacentDrop;
    var g := PlaceOf(l, r, m, p, q, positions, places, i, x);
    var h := PlaceOf(l, r, m, p, q, positions, places, j, y);
    if !AdjacentDrop(positions) {
      NoDropIncreases(positions, g, h);
    }
  }

  lemma PlaceOf(l: Tree, r: Tree, m: Mapping, p: nat, q: nat, positions: seq<nat>, places: seq<nat>, i: nat, x: nat)
    returns (g: nat)
    requires WellFormed(l) && WellFormed(r) && p < |l.nodes| && q < |r.nodes|
    requires Positions(l, r, m, p, q, |Children(l, p)|, positions, places)
    requires i < |Children(l, p)| && x < |Children(r, q)| && MappedTo(m, Children(l, p)[i], Children(r, q)[x])
    ensures g < |places| && places[g] == i && positions[g] == x
  {
    hide WellFormed;
    g :| 0 <= g < |places| && places[g] == i;
    SameChild(r, q, x, positions[g]);
  }

  lemma SameChild(t: Tree, p: nat, x: nat, y: nat)
    requires WellFormed(t) && p < |t.nodes| && x < |Children(t, p)| && y < |Children(t, p)|
    requires Children(t, p)[x] == Children(t, p)[y]
    ensures x == y
  {
  }

  method MappedPositions(l: Tree, r: Tree, m: Mapping, p: nat, q: nat) returns (positions: seq<nat>)
    requires WellFormed(l) && WellFormed(r) && Consistent(l, r, m) && p < |l.nodes| && q < |r.nodes|
    ensures AdjacentDrop(positions) <==> OutOfOrder(l, r, m, p, q)
  {
    hide AdjacentDrop, OutOfOrder, WellFormed, Positions;
    var befores, afters := Children(l, p), Children(r, q);
    var index := ChildPositions(r, q);
    positions := [];
    ghost var places: seq<nat> := [];
    NoPositions(l, r, m, p, q);
    for n := 0 to |befores|
      invariant Positions(l, r, m, p, q, n, positions, places)
    {
      var a := m.beforeToAfter[befores[n]];
      if a.Some? && r.nodes[a.value].parent == Some(q) && a.value in index {
        PositionAdded(l, r, m, p, q, n, positions, places, index[a.value]);
        positions := positions + [index[a.value]];
        places := places + [n];
      } else {
        PositionSkipped(l, r, m, p, q, n, positions, places);
      }
    }
    if AdjacentDrop(positions) {
      DropIsInverted(l, r, m, p, q, positions, places);
    } else if OutOfOrder(l, r, m, p, q) {
      NoInversion(l, r, m, p, q, positions, places);
    }
  }

  lemma NoPositions(l: Tree, r: Tree, m: Mapping, p: nat, q: nat)
    requires WellFormed(l) && WellFormed(r) && p < |l.nodes| && q < |r.nodes|
    ensures Positions(l, r, m, p, q, 0, [], [])
  {
  }

  lemma PositionAdded(l: Tree, r: Tree, m: Mapping, p: nat, q: nat, n: nat, positions: seq<nat>, places: seq<nat>,
                      x: nat)
    requires WellFormed(l) && WellFormed(r) && p < |l.nodes| && q < |r.nodes| && n < |Children(l, p)|
    requires Positions(l, r, m, p, q, n, positions, places)
    requires x < |Children(r, q)| && MappedTo(m, Children(l, p)[n], Children(r, q)[x])
    ensures Positions(l, r, m, p, q, n + 1, positions + [x], places + [n])
  {
    hide WellFormed, MappedTo;
    assert (places + [n])[|places|] == n;
    forall i | 0 <= i < n && i in places ensures i in places + [n] {
    }
  }

  lemma PositionSkipped(l: Tree, r: Tree, m: Mapping, p: nat, q: nat, n: nat, positions: seq<nat>, places: seq<nat>)
    requires WellFormed(l) && WellFormed(r) && p < |l.nodes| && q < |r.nodes| && n < |Children(l, p)|
    requires Positions(l, r, m, p, q, n, positions, places)
    requires forall x :: 0 <= x < |Children(r, q)| ==> !MappedTo(m, Children(l, p)[n], Children(r, q)[x])
    ensures Positions(l, r, m, p, q, n + 1, positions, places)
  {
    hide WellFormed, MappedTo;
  }

  lemma NoInversion(l: Tree, r: Tree, m: Mapping, p: nat, q: nat, positions: seq<nat>, places: seq<nat>)
    requires WellFormed(l) && WellFormed(r) && p < |l.nodes| && q < |r.nodes|
    requires Positions(l, r, m, p, q, |Children(l, p)|, positions, places) && OutOfOrder(l, r, m, p, q)
    ensures AdjacentDrop(positions)
  {
    hide WellFormed, AdjacentDrop, Inverted, Positions;
    var i: nat, j: nat, x: nat, y: nat :| Inverted(l, r, m, p, q, i, j, x, y);
    InvertedIsDrop(l, r, m, p, q, positions, places, i, j, x, y);
  }

  method ChildPositions(t: Tree, p: nat) returns (index: map<nat, nat>)
    requires WellFormed(t) && p < |t.nodes|
    ensures forall c :: c in index <==> c in Children(t, p)
    ensures forall c :: c in index ==> index[c] < |Children(t, p)| && Children(t, p)[index[c]] == c
  {
    index := map[];
    for n := 0 to |Children(t, p)|
      invariant forall c :: c in index <==> c in Children(t, p)[..n]
      invariant forall c :: c in index ==> index[c] < n && Children(t, p)[index[c]] == c
    {
      index := index[Children(t, p)[n] := n];
    }
    assert Children(t, p)[..|Children(t, p)|] == Children(t, p);
  }

  method AddOrderChanges(l: Tree, r: Tree, m: Mapping, start: seq<Change>) returns (changes: seq<Change>)
    requires WellFormed(l) && WellFormed(r) && Consistent(l, r, m)
    requires NoRepeats(start) && forall c :: c in start ==> c.kind != ChildOrderChanged
    ensures NoRepeats(changes) && forall c :: c in changes <==> c in start || IsOrderChange(l, r, m, c)
  {
    hide WellFormed, OutOfOrder, AdjacentDrop, NoRepeats;
    changes := start;
    for b := 0 to |m.beforeToAfter|
      invariant NoRepeats(changes)
      invariant forall c :: c in changes <==> c in start || (IsOrderChange(l, r, m, c) && c.before.value < b)
    {
      if m.beforeToAfter[b].Some? {
        var a := m.beforeToAfter[b].value;
        var positions := MappedPositions(l, r, m, b, a);
        if AdjacentDrop(positions) {
          NoRepeatsSnoc(changes, Change(ChildOrderChanged, Some(b), Some(a)));
          changes := changes + [Change(ChildOrderChanged, Some(b), Some(a))];
        }
      }
    }
  }

  // ----- changes of single pairs

  function PairChanges(l: Tree, r: Tree, m: Mapping, b: nat, a: nat): (changes: seq<Change>)
    requires WellFormed(l) && WellFormed(r) && 0 < b < |l.nodes| && a < |r.nodes|
    requires MappedTo(m, b, a) && b < |m.facts| && m.facts[b].Some?
    ensures NoRepeats(changes)
    ensures forall c :: c in changes <==>
                          IsNodeChange(l, r, m, c) && c.before == Some(b) && c.after == Some(a)
  {
    var relocation := if Relocated(l, r, m, b, a) then [Change(EquivalentRelocation, Some(b), Some(a))] else [];
    var update :=
      if !Updated(l, r, m, b, a) then []
      else match m.facts[b].value.correspondence
           case ModelForced => [Change(ModelForcedUpdate, Some(b), Some(a))]
           case Suggested => [Change(SuggestedUpdate, Some(b), Some(a))]
           case GivenPair => [];
    relocation + update
  }

  function NodeChanges(l: Tree, r: Tree, m: Mapping, b: nat): (changes: seq<Change>)
    requires WellFormed(l) && WellFormed(r) && Consistent(l, r, m) && b < |l.nodes|
    ensures NoRepeats(changes)
    ensures forall c :: c in changes <==> IsNodeChange(l, r, m, c) && c.before == Some(b)
  {
    if b == 0 || m.beforeToAfter[b].None? then [] else PairChanges(l, r, m, b, m.beforeToAfter[b].value)
  }

  method AddNodeChanges(l: Tree, r: Tree, m: Mapping, start: seq<Change>) returns (changes: seq<Change>)
    requires WellFormed(l) && WellFormed(r) && Consistent(l, r, m)
    requires NoRepeats(start)
    requires forall c :: c in start ==> c.kind == FormattingOnly || c.kind == ChildOrderChanged
    ensures NoRepeats(changes) && forall c :: c in changes <==> c in start || IsNodeChange(l, r, m, c)
  {
    hide WellFormed;
    changes := start;
    for b := 0 to |m.beforeToAfter|
      invariant NoRepeats(changes)
      invariant forall c :: c in changes <==> c in start || (IsNodeChange(l, r, m, c) && c.before.value < b)
    {
      changes := changes + NodeChanges(l, r, m, b);
    }
  }

  method AddDeletes(l: Tree, m: Mapping, ambiguous: set<nat>, start: seq<Change>) returns (changes: seq<Change>)
    requires WellFormed(l) && |m.beforeToAfter| == |l.nodes|
    requires NoRepeats(start) && forall c :: c in start ==> c.kind != Delete
    ensures NoRepeats(changes) && forall c :: c in changes <==> c in start || IsDelete(l, m, ambiguous, c)
  {
    hide WellFormed, NoRepeats;
    NonEmpty(l);
    changes := start;
    for b := 1 to |l.nodes|
      invariant NoRepeats(changes)
      invariant forall c :: c in changes <==> c in start || (IsDelete(l, m, ambiguous, c) && c.before.value < b)
    {
      if m.beforeToAfter[b].None? && b !in ambiguous && m.beforeToAfter[Parent(l, b)].Some? {
        NoRepeatsSnoc(changes, Change(Delete, Some(b), None));
        changes := changes + [Change(Delete, Some(b), None)];
      }
    }
  }

  method AddInserts(r: Tree, m: Mapping, ambiguous: set<nat>, start: seq<Change>) returns (changes: seq<Change>)
    requires WellFormed(r) && |m.afterToBefore| == |r.nodes|
    requires NoRepeats(start) && forall c :: c in start ==> c.kind != Insert
    ensures NoRepeats(changes) && forall c :: c in changes <==> c in start || IsInsert(r, m, ambiguous, c)
  {
    hide WellFormed, NoRepeats;
    NonEmpty(r);
    changes := start;
    for a := 1 to |r.nodes|
      invariant NoRepeats(changes)
      invariant forall c :: c in changes <==> c in start || (IsInsert(r, m, ambiguous, c) && c.after.value < a)
    {
      if m.afterToBefore[a].None? && a !in ambiguous && m.afterToBefore[Parent(r, a)].Some? {
        NoRepeatsSnoc(changes, Change(Insert, None, Some(a)));
        changes := changes + [Change(Insert, None, Some(a))];
      }
    }
  }

  lemma NonEmpty(t: Tree)
    requires WellFormed(t)
    ensures |t.nodes| >= 1
  {
  }

  // ----- the list

  function IdOrMax(id: Option<nat>): nat {
    if id.Some? then id.value else USIZE_MAX
  }

  function KindNumber(kind: ChangeKind): nat {
    match kind
    case Insert => 0
    case Delete => 1
    case EquivalentRelocation => 2
    case ChildOrderChanged => 3
    case ModelForcedUpdate => 4
    case SuggestedUpdate => 5
    case FormattingOnly => 6
  }

  predicate ChangeLe(c: Change, d: Change) {
    IdOrMax(c.before) < IdOrMax(d.before) || (IdOrMax(c.before) == IdOrMax(d.before) &&
    (IdOrMax(c.after) < IdOrMax(d.after) || (IdOrMax(c.after) == IdOrMax(d.after) &&
    KindNumber(c.kind) <= KindNumber(d.kind))))
  }

  lemma ListedInOrder(c: Change, d: Change)
    requires ChangeLe(c, d) && c != d
    requires c.before.Some? ==> c.before.value < USIZE_MAX
    requires d.before.Some? ==> d.before.value < USIZE_MAX
    requires c.after.Some? ==> c.after.value < USIZE_MAX
    requires d.after.Some? ==> d.after.value < USIZE_MAX
    ensures ListedBefore(c, d)
  {
    var kinds :=
      [Insert, Delete, EquivalentRelocation, ChildOrderChanged, ModelForcedUpdate, SuggestedUpdate, FormattingOnly];
    assert kinds[KindNumber(c.kind)] == c.kind && kinds[KindNumber(d.kind)] == d.kind;
  }

  /** Of trees that fit in memory the list is ordered by before id, after id and kind, missing ids last. */
  lemma ChangesInOrder(l: Tree, r: Tree, m: Mapping, ambiguousBefore: set<nat>, ambiguousAfter: set<nat>,
                       changes: seq<Change>)
    requires WellFormed(l) && WellFormed(r) && |l.nodes| <= USIZE_MAX && |r.nodes| <= USIZE_MAX
    requires forall c :: c in changes ==> Tells(l, r, m, ambiguousBefore, ambiguousAfter, c)
    requires NoRepeats(changes) && Sorting.Sorted(ChangeLe, changes)
    ensures forall i, j :: 0 <= i < j < |changes| ==> ListedBefore(changes[i], changes[j])
  {
    hide WellFormed, SameSerial, TurnedRound, ChangeLe, ListedBefore;
    forall i, j | 0 <= i < j < |changes| ensures ListedBefore(changes[i], changes[j]) {
      var c, d := changes[i], changes[j];
      assert c in changes && d in changes;
      TellsWithin(l, r, m, ambiguousBefore, ambiguousAfter, c);
      TellsWithin(l, r, m, ambiguousBefore, ambiguousAfter, d);
      ListedInOrder(c, d);
    }
  }

  lemma TellsWithin(l: Tree, r: Tree, m: Mapping, ambiguousBefore: set<nat>, ambiguousAfter: set<nat>, c: Change)
    requires WellFormed(l) && WellFormed(r) && Tells(l, r, m, ambiguousBefore, ambiguousAfter, c)
    ensures c.before.Some? ==> c.before.value < |l.nodes|
    ensures c.after.Some? ==> c.after.value < |r.nodes|
  {
    NonEmpty(l);
    NonEmpty(r);
    hide WellFormed, SameSerial, TurnedRound;
  }

  /** The list holds exactly the changes, each once, in order. */
  method DeriveChanges(l: Tree, r: Tree, m: Mapping, ambiguousBefore: set<nat>, ambiguousAfter: set<nat>)
    returns (changes: seq<Change>)
    requires WellFormed(l) && WellFormed(r) && Consistent(l, r, m)
    ensures NoRepeats(changes) && Sorting.Sorted(ChangeLe, changes)
    ensures forall c :: c in changes <==> IsChange(l, r, m, ambiguousBefore, ambiguousAfter, c)
    ensures forall c :: c in changes <==> Tells(l, r, m, ambiguousBefore, ambiguousAfter, c)
    ensures |l.nodes| <= 0xFFFF_FFFF_FFFF_FFFF && |r.nodes| <= 0xFFFF_FFFF_FFFF_FFFF ==>
              forall i, j :: 0 <= i < j < |changes| ==> ListedBefore(changes[i], changes[j])
  {
    hide WellFormed, Sorting.Sort, Sorting.Sorted, NoRepeats, SyntaxEqual, Tells, ListedBefore;
    NonEmpty(l);
    NonEmpty(r);
    changes := [];
    if SyntaxEqual(l, 0, r, 0) && l.source != r.source {
      changes := changes + [Change(FormattingOnly, Some(0), Some(0))];
    }
    AtMostOne(changes);
    changes := AddOrderChanges(l, r, m, changes);
    changes := AddNodeChanges(l, r, m, changes);
    changes := AddDeletes(l, m, ambiguousBefore, changes);
    changes := AddInserts(r, m, ambiguousAfter, changes);
    SortKeeps(changes);
    changes := Sorting.Sort(ChangeLe, changes);
    forall c
      ensures IsChange(l, r, m, ambiguousBefore, ambiguousAfter, c) <==>
              Tells(l, r, m, ambiguousBefore, ambiguousAfter, c)
    {
      TellsExactly(l, r, m, ambiguousBefore, ambiguousAfter, c);
    }
    hide IsChange;
    if |l.nodes| <= USIZE_MAX && |r.nodes| <= USIZE_MAX {
      ChangesInOrder(l, r, m, ambiguousBefore, ambiguousAfter, changes);
    }
  }

  lemma AtMostOne(changes: seq<Change>)
    requires |changes| <= 1
    ensures NoRepeats(changes)
  {
  }

  lemma SortKeeps(changes: seq<Change>)
    requires NoRepeats(changes)
    ensures Sorting.Sorted(ChangeLe, Sorting.Sort(ChangeLe, changes)) && NoRepeats(Sorting.Sort(ChangeLe, changes))
    ensures forall c :: c in Sorting.Sort(ChangeLe, changes) <==> c in changes
  {
    hide Sorting.Sort;
    Sorting.SortSorted(ChangeLe, changes);
    Sorting.SortMembers(ChangeLe, Uniqueness.Itself, changes);
  }
}
