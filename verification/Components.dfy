/** The interaction components of one region, and the exactness of the decomposition. */
module Components {
  import opened Wrappers
  import opened Chains
  import opened Syntax
  import opened Mappings
  import opened Buckets
  import opened ShapeClasses
  import opened CandidateGroups
  import opened Interaction
  import Alignment

  datatype Component = Component(before: seq<nat>, after: seq<nat>, groups: seq<nat>)

  /** The candidate matrix of two child lists: the cells whose row and column are compatible. */
  ghost function RegionCells(l: Tree, r: Tree, m: Mapping, befores: seq<nat>, afters: seq<nat>): set<Cell> {
    set i: nat, j: nat | i < |befores| && j < |afters| && Compatible(l, r, m, befores[i], afters[j]) :: (i, j)
  }

  ghost predicate At(befores: seq<nat>, afters: seq<nat>, b: nat, a: nat, x: Cell) {
    x.0 < |befores| && x.1 < |afters| && befores[x.0] == b && afters[x.1] == a
  }

  /** The pair of ids is a candidate that lies in every maximum ordered alignment of the two lists. */
  ghost predicate PairInEvery(l: Tree, r: Tree, m: Mapping, befores: seq<nat>, afters: seq<nat>, b: nat, a: nat) {
    exists x :: At(befores, afters, b, a, x) && x in RegionCells(l, r, m, befores, afters) &&
                InEvery(RegionCells(l, r, m, befores, afters), x)
  }

  ghost predicate PairInSome(l: Tree, r: Tree, m: Mapping, befores: seq<nat>, afters: seq<nat>, b: nat, a: nat) {
    exists x :: At(befores, afters, b, a, x) && x in RegionCells(l, r, m, befores, afters) &&
                InSome(RegionCells(l, r, m, befores, afters), x)
  }

  // ----- active children

  function Active(ids: seq<nat>, index: map<nat, nat>): (s: seq<nat>)
    ensures forall id :: id in s <==> id in ids && id in index
  {
    if ids == [] then []
    else
      var last := ids[|ids| - 1];
      assert ids == ids[..|ids| - 1] + [last];
      if last in index then Active(ids[..|ids| - 1], index) + [last] else Active(ids[..|ids| - 1], index)
  }

  /** Where the active ids stand in the whole list. */
  ghost function ActivePositions(ids: seq<nat>, index: map<nat, nat>): (s: seq<nat>)
    ensures |s| == |Active(ids, index)|
    ensures StrictlyIncreasing(s)
    ensures forall k :: 0 <= k < |s| ==> s[k] < |ids|
  {
    if ids == [] then []
    else
      var rest := ActivePositions(ids[..|ids| - 1], index);
      if ids[|ids| - 1] in index then rest + [|ids| - 1] else rest
  }

  lemma LastActive(ids: seq<nat>, index: map<nat, nat>)
    requires ids != []
    ensures var n := |ids| - 1;
            var rest, s := Active(ids[..n], index), Active(ids, index);
            var before, now := ActivePositions(ids[..n], index), ActivePositions(ids, index);
            if ids[n] in index then s == rest + [ids[n]] && now == before + [n] else s == rest && now == before
  {
  }

  lemma {:induction false} PositionsHold(ids: seq<nat>, index: map<nat, nat>)
    ensures forall k :: 0 <= k < |ActivePositions(ids, index)| ==>
                          ids[ActivePositions(ids, index)[k]] == Active(ids, index)[k]
    decreases |ids|
  {
    if ids != [] {
      PositionsHold(ids[..|ids| - 1], index);
      LastActive(ids, index);
      hide Active, ActivePositions;
    }
  }

  lemma {:induction false} PositionsFound(ids: seq<nat>, index: map<nat, nat>, p: nat)
    requires p < |ids| && ids[p] in index
    ensures p in ActivePositions(ids, index)
    decreases |ids|
  {
    var n := |ids| - 1;
    LastActive(ids, index);
    hide Active, ActivePositions;
    var before, now := ActivePositions(ids[..n], index), ActivePositions(ids, index);
    if p == n {
      assert now[|before|] == n;
    } else {
      PositionsFound(ids[..n], index, p);
      var k: nat :| k < |before| && before[k] == p;
      assert now[k] == p;
    }
  }

  lemma PositionsOfActive(ids: seq<nat>, index: map<nat, nat>)
    ensures forall k :: 0 <= k < |ActivePositions(ids, index)| ==>
                          ids[ActivePositions(ids, index)[k]] == Active(ids, index)[k]
    ensures forall p: nat :: p < |ids| && ids[p] in index ==> p in ActivePositions(ids, index)
  {
    hide Active, ActivePositions;
    PositionsHold(ids, index);
    forall p: nat | p < |ids| && ids[p] in index ensures p in ActivePositions(ids, index) {
      PositionsFound(ids, index, p);
    }
  }

  lemma ActiveDistinct(ids: seq<nat>, index: map<nat, nat>)
    requires Distinct(ids)
    ensures Distinct(Active(ids, index))
  {
    var s := ActivePositions(ids, index);
    PositionsOfActive(ids, index);
  }

  function GroupLabels(ids: seq<nat>, index: map<nat, nat>): (s: seq<nat>)
    requires forall id :: id in ids ==> id in index
    ensures |s| == |ids| && forall k :: 0 <= k < |ids| ==> s[k] == index[ids[k]]
  {
    seq(|ids|, k requires 0 <= k < |ids| => index[ids[k]])
  }

  /** The active children and their group labels, both sides. */
  ghost predicate Actives(cg: CandidateGroups, befores: seq<nat>, afters: seq<nat>, ab: seq<nat>, aa: seq<nat>,
                          gb: seq<nat>, ga: seq<nat>)
  {
    && ab == Active(befores, cg.beforeGroup) && aa == Active(afters, cg.afterGroup)
    && |gb| == |ab| && |ga| == |aa|
    && (forall k :: 0 <= k < |ab| ==> ab[k] in cg.beforeGroup && gb[k] == cg.beforeGroup[ab[k]])
    && (forall k :: 0 <= k < |aa| ==> aa[k] in cg.afterGroup && ga[k] == cg.afterGroup[aa[k]])
  }

  /** A group has a first member on each side, and the index finds it. */
  lemma GroupMember(l: Tree, r: Tree, m: Mapping, cg: CandidateGroups, befores: seq<nat>, afters: seq<nat>, k: nat)
    requires ValidGroups(l, r, m, befores, afters, cg) && k < |cg.groups|
    ensures cg.groups[k].before != [] && cg.groups[k].after != []
    ensures var b := cg.groups[k].before[0]; b in befores && b in cg.beforeGroup && cg.beforeGroup[b] == k
    ensures var a := cg.groups[k].after[0]; a in afters && a in cg.afterGroup && cg.afterGroup[a] == k
  {
    hide WellFormed, SameShape, IsComponent, AllGroupsDisjoint;
    assert RegionGroup(l, r, m, befores, afters, cg.groups[k]);
    assert cg.groups[k].before[0] in Side(cg.groups[k], true);
    assert cg.groups[k].after[0] in Side(cg.groups[k], false);
  }

  lemma GroupsInRange(l: Tree, r: Tree, m: Mapping, cg: CandidateGroups, befores: seq<nat>, afters: seq<nat>)
    requires ValidGroups(l, r, m, befores, afters, cg)
    ensures forall b :: b in cg.beforeGroup ==> cg.beforeGroup[b] < |cg.groups|
    ensures forall a :: a in cg.afterGroup ==> cg.afterGroup[a] < |cg.groups|
  {
    hide WellFormed, RegionGroup, AllGroupsDisjoint;
  }

  /** Every group has an active member on each side. */
  lemma ActivesTwoSided(l: Tree, r: Tree, m: Mapping, cg: CandidateGroups, befores: seq<nat>, afters: seq<nat>,
                        ab: seq<nat>, aa: seq<nat>, gb: seq<nat>, ga: seq<nat>)
    requires ValidGroups(l, r, m, befores, afters, cg) && Actives(cg, befores, afters, ab, aa, gb, ga)
    ensures TwoSided(gb, ga, |cg.groups|)
  {
    hide ValidGroups, Active;
    GroupsInRange(l, r, m, cg, befores, afters);
    forall i | 0 <= i < |gb| ensures gb[i] < |cg.groups| && gb[i] in ga {
      GroupMember(l, r, m, cg, befores, afters, gb[i]);
      var j :| 0 <= j < |aa| && aa[j] == cg.groups[gb[i]].after[0];
      assert ga[j] == gb[i];
    }
    forall j | 0 <= j < |ga| ensures ga[j] < |cg.groups| && ga[j] in gb {
      GroupMember(l, r, m, cg, befores, afters, ga[j]);
      var i :| 0 <= i < |ab| && ab[i] == cg.groups[ga[j]].before[0];
      assert gb[i] == ga[j];
    }
  }

  /** Compatible ids share a group, so both are active. */
  lemma CompatibleActive(l: Tree, r: Tree, m: Mapping, cg: CandidateGroups, befores: seq<nat>, afters: seq<nat>,
                         b: nat, a: nat)
    requires ValidGroups(l, r, m, befores, afters, cg) && b in befores && a in afters && Compatible(l, r, m, b, a)
    ensures b in cg.beforeGroup && a in cg.afterGroup && cg.beforeGroup[b] == cg.afterGroup[a]
  {
    hide WellFormed, Compatible, RegionGroup, AllGroupsDisjoint;
    assert Grouped(cg.groups, b, a);
    var k :| 0 <= k < |cg.groups| && b in cg.groups[k].before && a in cg.groups[k].after;
    assert b in Side(cg.groups[k], true) && a in Side(cg.groups[k], false);
  }

  lemma ActiveCells(l: Tree, r: Tree, m: Mapping, cg: CandidateGroups, befores: seq<nat>, afters: seq<nat>,
                    ab: seq<nat>, aa: seq<nat>, gb: seq<nat>, ga: seq<nat>)
    requires ValidGroups(l, r, m, befores, afters, cg) && Actives(cg, befores, afters, ab, aa, gb, ga)
    ensures RespectsGroups(gb, ga, RegionCells(l, r, m, ab, aa))
    ensures var rows, cols := ActivePositions(befores, cg.beforeGroup), ActivePositions(afters, cg.afterGroup);
            InRange(rows, cols, RegionCells(l, r, m, ab, aa)) &&
            Image(rows, cols, RegionCells(l, r, m, ab, aa)) == RegionCells(l, r, m, befores, afters)
  {
    hide Compatible, ValidGroups, StrictlyIncreasing;
    var rows, cols := ActivePositions(befores, cg.beforeGroup), ActivePositions(afters, cg.afterGroup);
    PositionsOfActive(befores, cg.beforeGroup);
    PositionsOfActive(afters, cg.afterGroup);
    var cells, region := RegionCells(l, r, m, ab, aa), RegionCells(l, r, m, befores, afters);
    forall x | x in cells ensures gb[x.0] == ga[x.1] {
      assert ab[x.0] in ab && aa[x.1] in aa;
      CompatibleActive(l, r, m, cg, befores, afters, ab[x.0], aa[x.1]);
    }
    forall x | x in region ensures x in Image(rows, cols, cells) {
      CompatibleActive(l, r, m, cg, befores, afters, befores[x.0], afters[x.1]);
      var i: nat :| i < |rows| && rows[i] == x.0;
      var j: nat :| j < |cols| && cols[j] == x.1;
      assert (i, j) in cells;
    }
    forall x | x in cells ensures (rows[x.0], cols[x.1]) in region {
    }
  }

  // ----- one component

  ghost function Offsets(lo: nat, hi: nat): (s: seq<nat>)
    requires lo <= hi
    ensures |s| == hi - lo && StrictlyIncreasing(s) && forall i :: 0 <= i < |s| ==> s[i] == lo + i
  {
    seq(hi - lo, i requires 0 <= i < hi - lo => lo + i)
  }

  /** The candidates of a component are the candidates of its block, renumbered from its first row and column. */
  lemma ComponentCells(l: Tree, r: Tree, m: Mapping, ab: seq<nat>, aa: seq<nat>, s: Span)
    requires s.beforeLo <= s.beforeHi <= |ab| && s.afterLo <= s.afterHi <= |aa|
    ensures var rows, cols := Offsets(s.beforeLo, s.beforeHi), Offsets(s.afterLo, s.afterHi);
            var cells := RegionCells(l, r, m, ab[s.beforeLo..s.beforeHi], aa[s.afterLo..s.afterHi]);
            InRange(rows, cols, cells) && Image(rows, cols, cells) == Block(RegionCells(l, r, m, ab, aa), s)
  {
    hide Compatible, StrictlyIncreasing;
    var rows, cols := Offsets(s.beforeLo, s.beforeHi), Offsets(s.afterLo, s.afterHi);
    var cells := RegionCells(l, r, m, ab[s.beforeLo..s.beforeHi], aa[s.afterLo..s.afterHi]);
    var block := Block(RegionCells(l, r, m, ab, aa), s);
    forall x | x in block ensures x in Image(rows, cols, cells) {
      var y: Cell := (x.0 - s.beforeLo, x.1 - s.afterLo);
      assert y in cells && rows[y.0] == x.0 && cols[y.1] == x.1;
    }
  }

  /** The same standing in two candidate matrices: in every optimum of both or of neither, and so for some. */
  ghost predicate SameStanding(cells: set<Cell>, x: Cell, others: set<Cell>, y: Cell) {
    && x in cells && y in others
    && (InEvery(cells, x) <==> InEvery(others, y))
    && (InSome(cells, x) <==> InSome(others, y))
  }

  lemma ActiveToRegion(l: Tree, r: Tree, m: Mapping, cg: CandidateGroups, befores: seq<nat>, afters: seq<nat>,
                       ab: seq<nat>, aa: seq<nat>, gb: seq<nat>, ga: seq<nat>, z: Cell) returns (x: Cell)
    requires ValidGroups(l, r, m, befores, afters, cg) && Actives(cg, befores, afters, ab, aa, gb, ga)
    requires z in RegionCells(l, r, m, ab, aa)
    ensures At(befores, afters, ab[z.0], aa[z.1], x)
    ensures SameStanding(RegionCells(l, r, m, ab, aa), z, RegionCells(l, r, m, befores, afters), x)
  {
    hide Compatible, ValidGroups, InEvery, InSome, StrictlyIncreasing;
    var cells := RegionCells(l, r, m, ab, aa);
    ActiveCells(l, r, m, cg, befores, afters, ab, aa, gb, ga);
    var rows, cols := ActivePositions(befores, cg.beforeGroup), ActivePositions(afters, cg.afterGroup);
    PairOfImage(rows, cols, cells, z);
    PositionsOfActive(befores, cg.beforeGroup);
    PositionsOfActive(afters, cg.afterGroup);
    x := (rows[z.0], cols[z.1]);
    assert x in Image(rows, cols, cells);
  }

  lemma LocalToActive(l: Tree, r: Tree, m: Mapping, ab: seq<nat>, aa: seq<nat>, gb: seq<nat>, ga: seq<nat>,
                      spans: seq<Span>, k: nat, s: Span, cb: seq<nat>, ca: seq<nat>, y: Cell) returns (z: Cell)
    requires RespectsGroups(gb, ga, RegionCells(l, r, m, ab, aa))
    requires Tiles(spans, |gb|, |ga|) && FinestUpTo(gb, ga, spans, |gb|) && k < |spans| && s == spans[k]
    requires s.beforeLo <= s.beforeHi <= |ab| && s.afterLo <= s.afterHi <= |aa|
    requires cb == ab[s.beforeLo..s.beforeHi] && ca == aa[s.afterLo..s.afterHi]
    requires y in RegionCells(l, r, m, cb, ca)
    ensures At(ab, aa, cb[y.0], ca[y.1], z)
    ensures SameStanding(RegionCells(l, r, m, cb, ca), y, RegionCells(l, r, m, ab, aa), z)
  {
    hide Compatible, Tiles, FinestUpTo, InEvery, InSome, StrictlyIncreasing, Separated, Union, RespectsGroups;
    var local, cells := RegionCells(l, r, m, cb, ca), RegionCells(l, r, m, ab, aa);
    var rows, cols := Offsets(s.beforeLo, s.beforeHi), Offsets(s.afterLo, s.afterHi);
    ComponentCells(l, r, m, ab, aa, s);
    PairOfImage(rows, cols, local, y);
    z := (rows[y.0], cols[y.1]);
    assert z in Image(rows, cols, local);
    SpansSeparate(gb, ga, spans, cells);
    PairDecomposes(Blocks(cells, spans), k, z);
  }

  /** The optimum of the region is the sum of the component optima. */
  lemma ComponentOptima(l: Tree, r: Tree, m: Mapping, cg: CandidateGroups, befores: seq<nat>, afters: seq<nat>,
                        ab: seq<nat>, aa: seq<nat>, gb: seq<nat>, ga: seq<nat>, spans: seq<Span>, optima: seq<nat>)
    requires ValidGroups(l, r, m, befores, afters, cg) && Actives(cg, befores, afters, ab, aa, gb, ga)
    requires Tiles(spans, |gb|, |ga|) && FinestUpTo(gb, ga, spans, |gb|) && |optima| == |spans|
    requires forall k :: 0 <= k < |spans| ==>
                           spans[k].beforeLo <= spans[k].beforeHi <= |ab| &&
                           spans[k].afterLo <= spans[k].afterHi <= |aa| &&
                           Optimum(RegionCells(l, r, m, ab[spans[k].beforeLo..spans[k].beforeHi],
                                               aa[spans[k].afterLo..spans[k].afterHi]), optima[k])
    ensures Optimum(RegionCells(l, r, m, befores, afters), Sum(optima))
  {
    hide Compatible, ValidGroups, StrictlyIncreasing, RespectsGroups, Optimum, Tiles, FinestUpTo, Separated, Union;
    var cells := RegionCells(l, r, m, ab, aa);
    ActiveCells(l, r, m, cg, befores, afters, ab, aa, gb, ga);
    SpansSeparate(gb, ga, spans, cells);
    var blocks := Blocks(cells, spans);
    forall k | 0 <= k < |blocks| ensures Optimum(blocks[k], optima[k]) {
      var s := spans[k];
      ComponentCells(l, r, m, ab, aa, s);
      OptimumOfImage(Offsets(s.beforeLo, s.beforeHi), Offsets(s.afterLo, s.afterHi),
                     RegionCells(l, r, m, ab[s.beforeLo..s.beforeHi], aa[s.afterLo..s.afterHi]), optima[k]);
    }
    OptimumDecomposes(blocks, optima);
    OptimumOfImage(ActivePositions(befores, cg.beforeGroup), ActivePositions(afters, cg.afterGroup), cells,
                   Sum(optima));
  }

  // ----- the components of a region

  /** x stands before y. */
  ghost predicate InTurn(ids: seq<nat>, x: nat, y: nat) {
    exists p, q :: 0 <= p < q < |ids| && ids[p] == x && ids[q] == y
  }

  /** Different members of the whole, in their order. */
  ghost predicate SubList(part: seq<nat>, whole: seq<nat>) {
    && Distinct(part) && (forall id :: id in part ==> id in whole)
    && forall i, j :: 0 <= i < j < |part| ==> InTurn(whole, part[i], part[j])
  }

  lemma SubListTransitive(part: seq<nat>, middle: seq<nat>, whole: seq<nat>)
    requires SubList(part, middle) && SubList(middle, whole)
    ensures SubList(part, whole)
  {
    forall i, j | 0 <= i < j < |part| ensures InTurn(whole, part[i], part[j]) {
      assert InTurn(middle, part[i], part[j]);
      var p, q :| 0 <= p < q < |middle| && middle[p] == part[i] && middle[q] == part[j];
      assert InTurn(whole, middle[p], middle[q]);
    }
  }

  lemma SliceIsSubList(ids: seq<nat>, lo: nat, hi: nat)
    requires Distinct(ids) && lo <= hi <= |ids|
    ensures SubList(ids[lo..hi], ids)
  {
    var part := ids[lo..hi];
    forall i, j | 0 <= i < j < |part| ensures InTurn(ids, part[i], part[j]) {
      assert ids[lo + i] == part[i] && ids[lo + j] == part[j];
    }
  }

  lemma SubListSnoc(part: seq<nat>, whole: seq<nat>, x: nat)
    requires SubList(part, whole) && x !in whole
    ensures SubList(part + [x], whole + [x]) && SubList(part, whole + [x])
  {
    var longer, more := part + [x], whole + [x];
    forall i, j | 0 <= i < j < |part| ensures InTurn(more, part[i], part[j]) {
      assert InTurn(whole, part[i], part[j]);
      var p, q :| 0 <= p < q < |whole| && whole[p] == part[i] && whole[q] == part[j];
      assert more[p] == part[i] && more[q] == part[j];
    }
    forall i | 0 <= i < |part| ensures InTurn(more, part[i], x) {
      assert part[i] in whole;
      var p :| 0 <= p < |whole| && whole[p] == part[i];
      assert more[p] == part[i] && more[|whole|] == x;
    }
  }

  lemma {:induction false} ActiveIsSubList(ids: seq<nat>, index: map<nat, nat>)
    requires Distinct(ids)
    ensures SubList(Active(ids, index), ids)
    decreases |ids|
  {
    if ids != [] {
      var init, last := ids[..|ids| - 1], ids[|ids| - 1];
      assert ids == init + [last];
      assert last !in init;
      ActiveIsSubList(init, index);
      SubListSnoc(Active(init, index), init, last);
    }
  }

  /** Every group the component names lies wholly inside it, and it holds nothing else. */
  ghost predicate OwnsWholeGroups(cg: CandidateGroups, c: Component) {
    && (forall g :: g in c.groups ==> g < |cg.groups|)
    && (forall g, b :: g in c.groups && b in cg.groups[g].before ==> b in c.before)
    && (forall g, a :: g in c.groups && a in cg.groups[g].after ==> a in c.after)
    && (forall b :: b in c.before ==> b in cg.beforeGroup && cg.beforeGroup[b] in c.groups)
    && (forall a :: a in c.after ==> a in cg.afterGroup && cg.afterGroup[a] in c.groups)
  }

  ghost predicate ComponentsApart(c: Component, d: Component) {
    && (forall b :: b in c.before ==> b !in d.before)
    && (forall a :: a in c.after ==> a !in d.after)
  }

  /** Pair by pair, the component has the same forced and the same possible pairs as the whole region. */
  ghost predicate ComponentExact(l: Tree, r: Tree, m: Mapping, befores: seq<nat>, afters: seq<nat>, c: Component) {
    forall b, a :: b in c.before && a in c.after ==>
                     (PairInEvery(l, r, m, c.before, c.after, b, a) <==> PairInEvery(l, r, m, befores, afters, b, a)) &&
                     (PairInSome(l, r, m, c.before, c.after, b, a) <==> PairInSome(l, r, m, befores, afters, b, a))
  }

  ghost predicate InOneComponent(components: seq<Component>, b: nat, a: nat) {
    exists k :: 0 <= k < |components| && b in components[k].before && a in components[k].after
  }

  ghost predicate GoodComponent(l: Tree, r: Tree, m: Mapping, cg: CandidateGroups, befores: seq<nat>, afters: seq<nat>,
                                c: Component)
  {
    && c.before != [] && c.after != [] && SubList(c.before, befores) && SubList(c.after, afters)
    && OwnsWholeGroups(cg, c)
    && ComponentExact(l, r, m, befores, afters, c)
  }

  ghost predicate Decomposition(l: Tree, r: Tree, m: Mapping, cg: CandidateGroups, befores: seq<nat>, afters: seq<nat>,
                                components: seq<Component>)
  {
    && (forall k :: 0 <= k < |components| ==> GoodComponent(l, r, m, cg, befores, afters, components[k]))
    && (forall j, k :: 0 <= j < |components| && 0 <= k < |components| && j != k ==>
                         ComponentsApart(components[j], components[k]))
    && (forall b, a :: b in befores && a in afters && Compatible(l, r, m, b, a) ==> InOneComponent(components, b, a))
    && (forall optima: seq<nat> ::
          |optima| == |components| &&
          (forall k :: 0 <= k < |components| ==>
                         Optimum(RegionCells(l, r, m, components[k].before, components[k].after), optima[k])) ==>
            Optimum(RegionCells(l, r, m, befores, afters), Sum(optima)))
  }

  // ----- building the components

  function ComponentOf(ab: seq<nat>, aa: seq<nat>, s: Span): Component
    requires s.beforeLo <= s.beforeHi <= |ab| && s.afterLo <= s.afterHi <= |aa|
  {
    Component(ab[s.beforeLo..s.beforeHi], aa[s.afterLo..s.afterHi], s.groups)
  }

  lemma SpanInBounds(spans: seq<Span>, before: nat, after: nat, k: nat)
    requires Tiles(spans, before, after) && k < |spans|
    ensures spans[k].beforeLo < spans[k].beforeHi <= before && spans[k].afterLo < spans[k].afterHi <= after
  {
    assert Follows(spans, k) && Follows(spans, |spans| - 1);
    if k < |spans| - 1 {
      SpansOrdered(spans, before, after, k, |spans| - 1);
    }
  }

  /** Everything known about the region while its components are cut. */
  ghost predicate Cut(l: Tree, r: Tree, m: Mapping, cg: CandidateGroups, befores: seq<nat>, afters: seq<nat>,
                      ab: seq<nat>, aa: seq<nat>, gb: seq<nat>, ga: seq<nat>, spans: seq<Span>)
  {
    && ValidIds(l, befores) && ValidIds(r, afters)
    && ValidGroups(l, r, m, befores, afters, cg) && Actives(cg, befores, afters, ab, aa, gb, ga)
    && Tiles(spans, |gb|, |ga|) && FinestUpTo(gb, ga, spans, |gb|)
    && forall k :: 0 <= k < |spans| ==> OwnsGroups(gb, spans[k])
  }

  lemma ComponentIsSubList(l: Tree, r: Tree, m: Mapping, cg: CandidateGroups, befores: seq<nat>, afters: seq<nat>,
                           ab: seq<nat>, aa: seq<nat>, s: Span)
    requires ValidIds(l, befores) && ValidIds(r, afters)
    requires ab == Active(befores, cg.beforeGroup) && aa == Active(afters, cg.afterGroup)
    requires s.beforeLo < s.beforeHi <= |ab| && s.afterLo < s.afterHi <= |aa|
    ensures var c := ComponentOf(ab, aa, s);
            c.before != [] && c.after != [] && SubList(c.before, befores) && SubList(c.after, afters)
  {
    hide WellFormed, Active, SubList;
    ActiveIsSubList(befores, cg.beforeGroup);
    ActiveIsSubList(afters, cg.afterGroup);
    ActiveDistinct(befores, cg.beforeGroup);
    ActiveDistinct(afters, cg.afterGroup);
    SliceIsSubList(ab, s.beforeLo, s.beforeHi);
    SliceIsSubList(aa, s.afterLo, s.afterHi);
    SubListTransitive(ab[s.beforeLo..s.beforeHi], ab, befores);
    SubListTransitive(aa[s.afterLo..s.afterHi], aa, afters);
  }

  lemma SliceHas(s: seq<nat>, lo: nat, hi: nat, i: nat)
    requires lo <= i < hi <= |s|
    ensures s[i] in s[lo..hi]
  {
    assert s[lo..hi][i - lo] == s[i];
  }

  /** Every member of a group that meets the span lies in the span, on either side. */
  lemma GroupInComponent(l: Tree, r: Tree, m: Mapping, cg: CandidateGroups, befores: seq<nat>, afters: seq<nat>,
                            ab: seq<nat>, aa: seq<nat>, gb: seq<nat>, ga: seq<nat>, spans: seq<Span>, k: nat, g: nat)
    requires Cut(l, r, m, cg, befores, afters, ab, aa, gb, ga, spans) && k < |spans|
    requires TwoSided(gb, ga, |cg.groups|)
    requires spans[k].beforeLo < spans[k].beforeHi <= |ab| && spans[k].afterLo < spans[k].afterHi <= |aa|
    requires g in spans[k].groups
    ensures g < |cg.groups|
    ensures forall b :: b in cg.groups[g].before ==> b in ComponentOf(ab, aa, spans[k]).before
    ensures forall a :: a in cg.groups[g].after ==> a in ComponentOf(ab, aa, spans[k]).after
  {
    hide WellFormed, ValidIds, ValidGroups, Active, FinestUpTo, OwnsGroups, Met, Tiles;
    var s := spans[k];
    SpanIsCutOut(gb, ga, spans, |gb|, |ga|, k);
    var i := SpanGroup(gb, s, g);
    var j: nat :| j < |ga| && ga[j] == g;
    forall b | b in cg.groups[g].before ensures b in ComponentOf(ab, aa, s).before {
      var h := BeforeMember(l, r, m, cg, befores, afters, ab, aa, gb, ga, g, b);
      SliceHas(ab, s.beforeLo, s.beforeHi, h);
    }
    forall a | a in cg.groups[g].after ensures a in ComponentOf(ab, aa, s).after {
      var h := AfterMember(l, r, m, cg, befores, afters, ab, aa, gb, ga, g, a);
      SliceHas(aa, s.afterLo, s.afterHi, h);
    }
  }

  lemma LabelIsGroup(cg: CandidateGroups, befores: seq<nat>, afters: seq<nat>, ab: seq<nat>, aa: seq<nat>,
                     gb: seq<nat>, ga: seq<nat>)
    requires Actives(cg, befores, afters, ab, aa, gb, ga)
    ensures |gb| == |ab| && |ga| == |aa|
    ensures forall k :: 0 <= k < |ab| ==> ab[k] in cg.beforeGroup && gb[k] == cg.beforeGroup[ab[k]]
    ensures forall k :: 0 <= k < |aa| ==> aa[k] in cg.afterGroup && ga[k] == cg.afterGroup[aa[k]]
  {
  }

  lemma SliceAt(ids: seq<nat>, lo: nat, hi: nat, id: nat) returns (i: nat)
    requires lo <= hi <= |ids| && id in ids[lo..hi]
    ensures lo <= i < hi && ids[i] == id
  {
    var n: nat :| n < hi - lo && ids[lo..hi][n] == id;
    i := lo + n;
  }

  /** Every child in the span belongs to a group of the span. */
  lemma ComponentIsGrouped(l: Tree, r: Tree, m: Mapping, cg: CandidateGroups, befores: seq<nat>, afters: seq<nat>,
                            ab: seq<nat>, aa: seq<nat>, gb: seq<nat>, ga: seq<nat>, spans: seq<Span>, k: nat)
    requires Cut(l, r, m, cg, befores, afters, ab, aa, gb, ga, spans) && k < |spans|
    requires TwoSided(gb, ga, |cg.groups|)
    requires spans[k].beforeLo < spans[k].beforeHi <= |ab| && spans[k].afterLo < spans[k].afterHi <= |aa|
    ensures forall b :: b in ComponentOf(ab, aa, spans[k]).before ==>
              b in cg.beforeGroup && cg.beforeGroup[b] in spans[k].groups
    ensures forall a :: a in ComponentOf(ab, aa, spans[k]).after ==>
              a in cg.afterGroup && cg.afterGroup[a] in spans[k].groups
  {
    hide ValidIds, ValidGroups, Actives, FinestUpTo, OwnsGroups, Tiles, TwoSided;
    var s := spans[k];
    LabelIsGroup(cg, befores, afters, ab, aa, gb, ga);
    SpanIsCutOut(gb, ga, spans, |gb|, |ga|, k);
    assert OwnsGroups(gb, s);
    hide Cut;
    forall b | b in ab[s.beforeLo..s.beforeHi] ensures b in cg.beforeGroup && cg.beforeGroup[b] in s.groups {
      var i := SliceAt(ab, s.beforeLo, s.beforeHi, b);
      GroupInSpan(gb, s, i);
    }
    forall a | a in aa[s.afterLo..s.afterHi] ensures a in cg.afterGroup && cg.afterGroup[a] in s.groups {
      var j := SliceAt(aa, s.afterLo, s.afterHi, a);
      var i := OtherSide(gb, ga, |cg.groups|, j);
      GroupInSpan(gb, s, i);
    }
  }

  lemma OtherSide(gb: seq<nat>, ga: seq<nat>, n: nat, j: nat) returns (i: nat)
    requires TwoSided(gb, ga, n) && j < |ga|
    ensures i < |gb| && gb[i] == ga[j]
  {
    assert ga[j] in gb;
    i :| 0 <= i < |gb| && gb[i] == ga[j];
  }

  lemma ComponentOwnsGroups(l: Tree, r: Tree, m: Mapping, cg: CandidateGroups, befores: seq<nat>, afters: seq<nat>,
                            ab: seq<nat>, aa: seq<nat>, gb: seq<nat>, ga: seq<nat>, spans: seq<Span>, k: nat)
    requires Cut(l, r, m, cg, befores, afters, ab, aa, gb, ga, spans) && k < |spans|
    requires TwoSided(gb, ga, |cg.groups|)
    requires spans[k].beforeLo < spans[k].beforeHi <= |ab| && spans[k].afterLo < spans[k].afterHi <= |aa|
    ensures OwnsWholeGroups(cg, ComponentOf(ab, aa, spans[k]))
  {
    hide Cut, TwoSided;
    forall g | g in spans[k].groups
      ensures g < |cg.groups|
      ensures forall b :: b in cg.groups[g].before ==> b in ComponentOf(ab, aa, spans[k]).before
      ensures forall a :: a in cg.groups[g].after ==> a in ComponentOf(ab, aa, spans[k]).after
    {
      GroupInComponent(l, r, m, cg, befores, afters, ab, aa, gb, ga, spans, k, g);
    }
    ComponentIsGrouped(l, r, m, cg, befores, afters, ab, aa, gb, ga, spans, k);
  }

  lemma SpanGroup(gb: seq<nat>, s: Span, g: nat) returns (i: nat)
    requires OwnsGroups(gb, s) && g in s.groups
    ensures s.beforeLo <= i < s.beforeHi <= |gb| && gb[i] == g
  {
    assert g in Members(s.groups);
    i :| s.beforeLo <= i < s.beforeHi && gb[i] == g;
  }

  lemma GroupInSpan(gb: seq<nat>, s: Span, i: nat)
    requires OwnsGroups(gb, s) && s.beforeLo <= i < s.beforeHi
    ensures i < |gb| && gb[i] in s.groups
  {
    assert gb[i] in Met(gb, s.beforeLo, s.beforeHi);
    assert gb[i] in Members(s.groups);
  }

  lemma BeforeMember(l: Tree, r: Tree, m: Mapping, cg: CandidateGroups, befores: seq<nat>, afters: seq<nat>,
                     ab: seq<nat>, aa: seq<nat>, gb: seq<nat>, ga: seq<nat>, g: nat, b: nat) returns (h: nat)
    requires ValidGroups(l, r, m, befores, afters, cg) && Actives(cg, befores, afters, ab, aa, gb, ga)
    requires g < |cg.groups| && b in cg.groups[g].before
    ensures h < |ab| && ab[h] == b && gb[h] == g
  {
    hide WellFormed, AllGroupsDisjoint, SameShape, IsComponent, Active;
    assert RegionGroup(l, r, m, befores, afters, cg.groups[g]);
    assert b in Side(cg.groups[g], true);
    assert b in ab;
    h :| 0 <= h < |ab| && ab[h] == b;
  }

  lemma AfterMember(l: Tree, r: Tree, m: Mapping, cg: CandidateGroups, befores: seq<nat>, afters: seq<nat>,
                    ab: seq<nat>, aa: seq<nat>, gb: seq<nat>, ga: seq<nat>, g: nat, a: nat) returns (h: nat)
    requires ValidGroups(l, r, m, befores, afters, cg) && Actives(cg, befores, afters, ab, aa, gb, ga)
    requires g < |cg.groups| && a in cg.groups[g].after
    ensures h < |aa| && aa[h] == a && ga[h] == g
  {
    hide WellFormed, AllGroupsDisjoint, SameShape, IsComponent, Active;
    assert RegionGroup(l, r, m, befores, afters, cg.groups[g]);
    assert a in Side(cg.groups[g], false);
    assert a in aa;
    h :| 0 <= h < |aa| && aa[h] == a;
  }

  /** Between two cuts, a child is inside the interval iff every child of its group on the other side is. */
  lemma SpanIsCutOut(gb: seq<nat>, ga: seq<nat>, spans: seq<Span>, before: nat, after: nat, k: nat)
    requires Tiles(spans, before, after) && FinestUpTo(gb, ga, spans, |gb|) && k < |spans|
    ensures forall i, j :: 0 <= i < |gb| && 0 <= j < |ga| && gb[i] == ga[j] ==>
                             (spans[k].beforeLo <= i < spans[k].beforeHi <==> spans[k].afterLo <= j < spans[k].afterHi)
  {
    assert Follows(spans, k);
    assert IsCut(gb, ga, spans[k].beforeHi, spans[k].afterHi);
    if k > 0 {
      assert IsCut(gb, ga, spans[k - 1].beforeHi, spans[k - 1].afterHi);
    }
  }

  lemma ComponentIsExact(l: Tree, r: Tree, m: Mapping, cg: CandidateGroups, befores: seq<nat>, afters: seq<nat>,
                         ab: seq<nat>, aa: seq<nat>, gb: seq<nat>, ga: seq<nat>, spans: seq<Span>, k: nat)
    requires Cut(l, r, m, cg, befores, afters, ab, aa, gb, ga, spans) && k < |spans|
    requires spans[k].beforeLo < spans[k].beforeHi <= |ab| && spans[k].afterLo < spans[k].afterHi <= |aa|
    ensures ComponentExact(l, r, m, befores, afters, ComponentOf(ab, aa, spans[k]))
  {
    hide WellFormed, Compatible, ValidGroups, Tiles, FinestUpTo, OwnsGroups, InEvery, InSome, Active;
    var s := spans[k];
    var c := ComponentOf(ab, aa, s);
    ComponentIsSubList(l, r, m, cg, befores, afters, ab, aa, s);
    forall b, a | b in c.before && a in c.after
      ensures PairInEvery(l, r, m, c.before, c.after, b, a) <==> PairInEvery(l, r, m, befores, afters, b, a)
      ensures PairInSome(l, r, m, c.before, c.after, b, a) <==> PairInSome(l, r, m, befores, afters, b, a)
    {
      var i: nat :| i < |c.before| && c.before[i] == b;
      var j: nat :| j < |c.after| && c.after[j] == a;
      PairStanding(l, r, m, cg, befores, afters, ab, aa, gb, ga, spans, k, c, (i, j));
    }
  }

  lemma PairStanding(l: Tree, r: Tree, m: Mapping, cg: CandidateGroups, befores: seq<nat>, afters: seq<nat>,
                     ab: seq<nat>, aa: seq<nat>, gb: seq<nat>, ga: seq<nat>, spans: seq<Span>, k: nat,
                     c: Component, y: Cell)
    requires Cut(l, r, m, cg, befores, afters, ab, aa, gb, ga, spans) && k < |spans|
    requires spans[k].beforeLo < spans[k].beforeHi <= |ab| && spans[k].afterLo < spans[k].afterHi <= |aa|
    requires c == ComponentOf(ab, aa, spans[k]) && Distinct(c.before) && Distinct(c.after)
    requires y.0 < |c.before| && y.1 < |c.after|
    ensures PairInEvery(l, r, m, c.before, c.after, c.before[y.0], c.after[y.1]) <==>
            PairInEvery(l, r, m, befores, afters, c.before[y.0], c.after[y.1])
    ensures PairInSome(l, r, m, c.before, c.after, c.before[y.0], c.after[y.1]) <==>
            PairInSome(l, r, m, befores, afters, c.before[y.0], c.after[y.1])
  {
    hide WellFormed, Compatible, ValidGroups, Actives, Tiles, FinestUpTo, OwnsGroups, InEvery, InSome;
    var local, region := RegionCells(l, r, m, c.before, c.after), RegionCells(l, r, m, befores, afters);
    var b, a := c.before[y.0], c.after[y.1];
    if y in local {
      ActiveCells(l, r, m, cg, befores, afters, ab, aa, gb, ga);
      var z := LocalToActive(l, r, m, ab, aa, gb, ga, spans, k, spans[k], c.before, c.after, y);
      var x := ActiveToRegion(l, r, m, cg, befores, afters, ab, aa, gb, ga, z);
      OnlyPosition(befores, afters, b, a, x);
      OnlyPosition(c.before, c.after, b, a, y);
    } else {
      forall x | At(befores, afters, b, a, x) ensures x !in region {
      }
      OnlyPosition(c.before, c.after, b, a, y);
    }
  }

  lemma OnlyPosition(befores: seq<nat>, afters: seq<nat>, b: nat, a: nat, x: Cell)
    requires Distinct(befores) && Distinct(afters) && At(befores, afters, b, a, x)
    ensures forall y :: At(befores, afters, b, a, y) ==> y == x
  {
  }

  lemma CutDecomposes(l: Tree, r: Tree, m: Mapping, cg: CandidateGroups, befores: seq<nat>, afters: seq<nat>,
                      ab: seq<nat>, aa: seq<nat>, gb: seq<nat>, ga: seq<nat>, spans: seq<Span>,
                      components: seq<Component>)
    requires Cut(l, r, m, cg, befores, afters, ab, aa, gb, ga, spans)
    requires |components| == |spans|
    requires forall k :: 0 <= k < |spans| ==> spans[k].beforeLo <= spans[k].beforeHi <= |ab| &&
                                              spans[k].afterLo <= spans[k].afterHi <= |aa| &&
                                              components[k] == ComponentOf(ab, aa, spans[k])
    ensures Decomposition(l, r, m, cg, befores, afters, components)
  {
    hide WellFormed, Compatible, ValidGroups, Tiles, FinestUpTo, OwnsGroups;
    hide Optimum, OwnsWholeGroups, ComponentExact, SubList;
    ActivesTwoSided(l, r, m, cg, befores, afters, ab, aa, gb, ga);
    forall k | 0 <= k < |components| ensures GoodComponent(l, r, m, cg, befores, afters, components[k]) {
      SpanInBounds(spans, |gb|, |ga|, k);
      ComponentIsSubList(l, r, m, cg, befores, afters, ab, aa, spans[k]);
      ComponentOwnsGroups(l, r, m, cg, befores, afters, ab, aa, gb, ga, spans, k);
      ComponentIsExact(l, r, m, cg, befores, afters, ab, aa, gb, ga, spans, k);
    }
    forall j, k | 0 <= j < |components| && 0 <= k < |components| && j != k
      ensures ComponentsApart(components[j], components[k])
    {
      SpansApart(l, r, m, cg, befores, afters, ab, aa, spans, |gb|, |ga|, j, k);
    }
    forall b, a | b in befores && a in afters && Compatible(l, r, m, b, a) ensures InOneComponent(components, b, a) {
      CompatibleInSpan(l, r, m, cg, befores, afters, ab, aa, gb, ga, spans, components, b, a);
    }
    forall optima: seq<nat> | |optima| == |components| &&
        forall k :: 0 <= k < |components| ==>
                      Optimum(RegionCells(l, r, m, components[k].before, components[k].after), optima[k])
      ensures Optimum(RegionCells(l, r, m, befores, afters), Sum(optima))
    {
      ComponentOptima(l, r, m, cg, befores, afters, ab, aa, gb, ga, spans, optima);
    }
  }

  lemma SpansApart(l: Tree, r: Tree, m: Mapping, cg: CandidateGroups, befores: seq<nat>, afters: seq<nat>,
                   ab: seq<nat>, aa: seq<nat>, spans: seq<Span>, before: nat, after: nat, j: nat, k: nat)
    requires ValidIds(l, befores) && ValidIds(r, afters)
    requires ab == Active(befores, cg.beforeGroup) && aa == Active(afters, cg.afterGroup)
    requires Tiles(spans, before, after) && before == |ab| && after == |aa|
    requires j < |spans| && k < |spans| && j != k
    ensures spans[j].beforeLo <= spans[j].beforeHi <= |ab| && spans[j].afterLo <= spans[j].afterHi <= |aa|
    ensures spans[k].beforeLo <= spans[k].beforeHi <= |ab| && spans[k].afterLo <= spans[k].afterHi <= |aa|
    ensures ComponentsApart(ComponentOf(ab, aa, spans[j]), ComponentOf(ab, aa, spans[k]))
  {
    hide WellFormed, Active, Tiles;
    SpanInBounds(spans, before, after, j);
    SpanInBounds(spans, before, after, k);
    SpansOrdered(spans, before, after, if j < k then j else k, if j < k then k else j);
    ActiveDistinct(befores, cg.beforeGroup);
    ActiveDistinct(afters, cg.afterGroup);
  }

  lemma CompatibleInSpan(l: Tree, r: Tree, m: Mapping, cg: CandidateGroups, befores: seq<nat>, afters: seq<nat>,
                         ab: seq<nat>, aa: seq<nat>, gb: seq<nat>, ga: seq<nat>, spans: seq<Span>,
                         components: seq<Component>, b: nat, a: nat)
    requires Cut(l, r, m, cg, befores, afters, ab, aa, gb, ga, spans)
    requires |components| == |spans|
    requires forall k :: 0 <= k < |spans| ==> spans[k].beforeLo <= spans[k].beforeHi <= |ab| &&
                                              spans[k].afterLo <= spans[k].afterHi <= |aa| &&
                                              components[k] == ComponentOf(ab, aa, spans[k])
    requires b in befores && a in afters && Compatible(l, r, m, b, a)
    ensures InOneComponent(components, b, a)
  {
    hide WellFormed, Compatible, ValidGroups, OwnsGroups, Active, Tiles;
    CompatibleActive(l, r, m, cg, befores, afters, b, a);
    assert b in ab && a in aa;
    var i: nat :| i < |ab| && ab[i] == b;
    var j: nat :| j < |aa| && aa[j] == a;
    var k := SpanOf(gb, ga, spans, |gb|, |ga|, (i, j));
    SliceHas(ab, spans[k].beforeLo, spans[k].beforeHi, i);
    SliceHas(aa, spans[k].afterLo, spans[k].afterHi, j);
  }

  ghost predicate SliceOf(ab: seq<nat>, aa: seq<nat>, s: Span, c: Component) {
    && s.beforeLo <= s.beforeHi <= |ab| && s.afterLo <= s.afterHi <= |aa|
    && c == ComponentOf(ab, aa, s)
  }

  /** The components are consecutive, non-empty slices of the active children of both sides, use all of them up, and
      end at exactly the places where the region can be cut. */
  ghost predicate FinestSlices(cg: CandidateGroups, befores: seq<nat>, afters: seq<nat>, components: seq<Component>,
                               spans: seq<Span>)
  {
    var ab, aa := Active(befores, cg.beforeGroup), Active(afters, cg.afterGroup);
    && |spans| == |components| && Tiles(spans, |ab|, |aa|)
    && FinestUpTo(GroupLabels(ab, cg.beforeGroup), GroupLabels(aa, cg.afterGroup), spans, |ab|)
    && forall k :: 0 <= k < |spans| ==> SliceOf(ab, aa, spans[k], components[k])
  }

  /** A cut inside a component, were there one, would be the end of some component. */
  lemma NoCutInside(gb: seq<nat>, ga: seq<nat>, spans: seq<Span>, before: nat, after: nat, k: nat, p: nat, q: nat)
    requires Tiles(spans, before, after) && FinestUpTo(gb, ga, spans, |gb|) && k < |spans|
    requires spans[k].beforeLo < p < spans[k].beforeHi
    ensures !IsCut(gb, ga, p, q)
  {
    if IsCut(gb, ga, p, q) {
      var n :| 0 <= n < |spans| && EndsAt(spans[n], p, q);
      SpanInBounds(spans, before, after, n);
      SpanInBounds(spans, before, after, k);
      if n < k {
        SpansOrdered(spans, before, after, n, k);
      } else if k < n {
        SpansOrdered(spans, before, after, k, n);
      }
    }
  }

  /** No component can be divided: wherever both its lists are split, some group has a member on either side of the
      split. */
  lemma ComponentIndivisible(cg: CandidateGroups, befores: seq<nat>, afters: seq<nat>, components: seq<Component>,
                             spans: seq<Span>, k: nat, p: nat, q: nat) returns (i: nat, j: nat)
    requires FinestSlices(cg, befores, afters, components, spans) && k < |components|
    requires 0 < p < |components[k].before| && q <= |components[k].after|
    ensures i < |components[k].before| && j < |components[k].after|
    ensures components[k].before[i] in cg.beforeGroup && components[k].after[j] in cg.afterGroup
    ensures cg.beforeGroup[components[k].before[i]] == cg.afterGroup[components[k].after[j]]
    ensures !(i < p <==> j < q)
  {
    hide Tiles, FinestUpTo, Active;
    var ab, aa := Active(befores, cg.beforeGroup), Active(afters, cg.afterGroup);
    var gb, ga := GroupLabels(ab, cg.beforeGroup), GroupLabels(aa, cg.afterGroup);
    var s := spans[k];
    assert SliceOf(ab, aa, s, components[k]);
    var x, y := SplitCrossed(gb, ga, spans, |ab|, |aa|, k, s.beforeLo + p, s.afterLo + q);
    hide GroupLabels;
    i, j := x - s.beforeLo, y - s.afterLo;
    assert components[k].before[i] == ab[x] && components[k].after[j] == aa[y];
    assert ab[x] in ab && aa[y] in aa;
  }

  lemma SplitCrossed(gb: seq<nat>, ga: seq<nat>, spans: seq<Span>, before: nat, after: nat, k: nat, p: nat, q: nat)
    returns (x: nat, y: nat)
    requires Tiles(spans, before, after) && before == |gb| && after == |ga|
    requires FinestUpTo(gb, ga, spans, |gb|) && k < |spans|
    requires spans[k].beforeLo < p < spans[k].beforeHi && spans[k].afterLo <= q <= spans[k].afterHi
    ensures spans[k].beforeLo <= x < spans[k].beforeHi <= |gb| && spans[k].afterLo <= y < spans[k].afterHi <= |ga|
    ensures gb[x] == ga[y] && !(x < p <==> y < q)
  {
    hide Tiles, FinestUpTo;
    SpanInBounds(spans, before, after, k);
    NoCutInside(gb, ga, spans, before, after, k, p, q);
    SpanStartsAtCut(gb, ga, spans, before, after, k);
    x, y :| 0 <= x < |gb| && 0 <= y < |ga| && gb[x] == ga[y] && !(x < p <==> y < q);
  }

  lemma SpanStartsAtCut(gb: seq<nat>, ga: seq<nat>, spans: seq<Span>, before: nat, after: nat, k: nat)
    requires Tiles(spans, before, after) && FinestUpTo(gb, ga, spans, |gb|) && k < |spans|
    ensures IsCut(gb, ga, spans[k].beforeLo, spans[k].afterLo) && IsCut(gb, ga, spans[k].beforeHi, spans[k].afterHi)
  {
    assert Follows(spans, k);
    if k > 0 {
      assert IsCut(gb, ga, spans[k - 1].beforeHi, spans[k - 1].afterHi);
    }
  }

  method OrderedInteractionComponents(ghost l: Tree, ghost r: Tree, ghost m: Mapping, cg: CandidateGroups,
                                      befores: seq<nat>, afters: seq<nat>)
    returns (components: seq<Component>, ghost cuts: seq<Span>)
    requires ValidIds(l, befores) && ValidIds(r, afters) && ValidGroups(l, r, m, befores, afters, cg)
    ensures Decomposition(l, r, m, cg, befores, afters, components)
    ensures FinestSlices(cg, befores, afters, components, cuts)
  {
    hide ValidIds, ValidGroups, Tiles, FinestUpTo, OwnsGroups, Decomposition, TwoSided, Active;
    var ab := Active(befores, cg.beforeGroup);
    var aa := Active(afters, cg.afterGroup);
    var gb, ga := GroupLabels(ab, cg.beforeGroup), GroupLabels(aa, cg.afterGroup);
    ActivesTwoSided(l, r, m, cg, befores, afters, ab, aa, gb, ga);
    var spans := InteractionSpans(gb, ga, |cg.groups|);
    forall k | 0 <= k < |spans|
      ensures spans[k].beforeLo <= spans[k].beforeHi <= |ab| && spans[k].afterLo <= spans[k].afterHi <= |aa|
    {
      SpanInBounds(spans, |gb|, |ga|, k);
    }
    components := seq(|spans|, k requires 0 <= k < |spans| => ComponentOf(ab, aa, spans[k]));
    cuts := spans;
    CutDecomposes(l, r, m, cg, befores, afters, ab, aa, gb, ga, spans, components);
  }
}
