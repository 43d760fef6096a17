/** The stable core of one region: the pairs every optimum contains, and the ambiguity that is left. */
module StableCore {
  import opened Wrappers
  import opened Chains
  import opened Finite
  import opened Alignment
  import opened Syntax
  import opened Mappings
  import opened Buckets
  import opened ShapeClasses
  import opened CandidateGroups
  import opened Components
  import Sorting
  import Uniqueness

  datatype AbstentionCause = DuplicateSymmetry | ComponentLimit | CandidateScanLimit

  datatype Constraint =
    | ExactOrderedAlignment(requiredMatches: nat, possiblePairs: seq<Pair>)
    | SymbolicAbstention(cause: AbstentionCause)

  datatype Ambiguity = Ambiguity(before: seq<nat>, after: seq<nat>, constraint: Constraint)

  datatype Outcome = Outcome(forced: seq<Pair>, ambiguities: seq<Ambiguity>)

  // ----- the candidate matrix of one component

  /** A component of a region, with all that is known about it. */
  ghost predicate InRegion(l: Tree, r: Tree, m: Mapping, cg: CandidateGroups, befores: seq<nat>, afters: seq<nat>,
                           c: Component)
  {
    && ValidIds(l, befores) && ValidIds(r, afters) && Sized(l, r, m)
    && ValidGroups(l, r, m, befores, afters, cg)
    && GoodComponent(l, r, m, cg, befores, afters, c)
  }

  lemma ComponentMember(l: Tree, r: Tree, m: Mapping, cg: CandidateGroups, befores: seq<nat>, afters: seq<nat>,
                        c: Component, i: nat, j: nat)
    requires InRegion(l, r, m, cg, befores, afters, c) && i < |c.before| && j < |c.after|
    ensures c.before[i] < |l.nodes| && c.after[j] < |r.nodes|
    ensures c.before[i] in cg.beforeGroup && c.after[j] in cg.afterGroup
    ensures cg.beforeGroup[c.before[i]] < |cg.groups|
    ensures c.before[i] in befores && c.after[j] in afters
    ensures WellFormed(l) && WellFormed(r) && Sized(l, r, m)
  {
    hide WellFormed, RegionGroup, AllGroupsDisjoint, ComponentExact;
    assert c.before[i] in c.before && c.after[j] in c.after;
  }

  /** Sharing a group, equal shape and mappability are together exactly compatibility. */
  lemma CandidateTest(l: Tree, r: Tree, m: Mapping, cg: CandidateGroups, befores: seq<nat>, afters: seq<nat>, b: nat,
                      a: nat)
    requires ValidGroups(l, r, m, befores, afters, cg) && b in befores && a in afters && Sized(l, r, m)
    requires b in cg.beforeGroup && a in cg.afterGroup && b < |l.nodes| && a < |r.nodes|
    ensures cg.beforeGroup[b] == cg.afterGroup[a] && ShapeEqual(l, b, r, a) && CanMapShapePair(l, r, m, b, a) <==>
            Compatible(l, r, m, b, a)
  {
    hide WellFormed, ShapeEqual, CanMapShapePair, IsComponent, AllGroupsDisjoint;
    if Compatible(l, r, m, b, a) {
      CompatibleActive(l, r, m, cg, befores, afters, b, a);
    }
    var k := cg.beforeGroup[b];
    assert b in Side(cg.groups[k], true);
    assert RegionGroup(l, r, m, befores, afters, cg.groups[k]);
    assert a in Side(cg.groups[cg.afterGroup[a]], false);
  }

  method CandidateRow(l: Tree, r: Tree, m: Mapping, cg: CandidateGroups, ghost befores: seq<nat>,
                      ghost afters: seq<nat>, c: Component, i: nat) returns (row: seq<bool>)
    requires InRegion(l, r, m, cg, befores, afters, c) && i < |c.before|
    ensures |row| == |c.after|
    ensures forall y :: 0 <= y < |row| ==> (row[y] <==> Compatible(l, r, m, c.before[i], c.after[y]))
  {
    hide WellFormed, InRegion, Compatible, ShapeEqual, CanMapShapePair, ValidGroups;
    RegionIsValid(l, r, m, cg, befores, afters, c);
    row := [];
    for j := 0 to |c.after|
      invariant |row| == j
      invariant forall y :: 0 <= y < j ==> (row[y] <==> Compatible(l, r, m, c.before[i], c.after[y]))
    {
      ComponentMember(l, r, m, cg, befores, afters, c, i, j);
      var b, a := c.before[i], c.after[j];
      CandidateTest(l, r, m, cg, befores, afters, b, a);
      row := row + [cg.beforeGroup[b] == cg.afterGroup[a] && ShapeEqual(l, b, r, a) && CanMapShapePair(l, r, m, b, a)];
    }
  }

  method CandidateMatrix(l: Tree, r: Tree, m: Mapping, cg: CandidateGroups, ghost befores: seq<nat>,
                         ghost afters: seq<nat>, c: Component) returns (candidates: seq<seq<bool>>)
    requires InRegion(l, r, m, cg, befores, afters, c)
    ensures Rectangular(candidates) && |candidates| == |c.before| && Width(candidates) == |c.after|
    ensures Cells(candidates) == RegionCells(l, r, m, c.before, c.after)
  {
    hide WellFormed, InRegion, Compatible, ValidGroups;
    candidates := [];
    for i := 0 to |c.before|
      invariant |candidates| == i
      invariant forall x :: 0 <= x < i ==> |candidates[x]| == |c.after|
      invariant forall x, y :: 0 <= x < i && 0 <= y < |c.after| ==>
                                 (candidates[x][y] <==> Compatible(l, r, m, c.before[x], c.after[y]))
    {
      var row := CandidateRow(l, r, m, cg, befores, afters, c, i);
      candidates := candidates + [row];
    }
    RegionIsValid(l, r, m, cg, befores, afters, c);
  }

  lemma RegionIsValid(l: Tree, r: Tree, m: Mapping, cg: CandidateGroups, befores: seq<nat>, afters: seq<nat>,
                      c: Component)
    requires InRegion(l, r, m, cg, befores, afters, c)
    ensures ValidGroups(l, r, m, befores, afters, cg) && Sized(l, r, m) && c.before != [] && c.after != []
    ensures Distinct(c.before) && Distinct(c.after) && OwnsWholeGroups(cg, c)
  {
    hide WellFormed, ComponentExact;
  }

  // ----- classifying the cells in row-major order

  predicate SingletonGroup(cg: CandidateGroups, b: nat) {
    b in cg.beforeGroup && cg.beforeGroup[b] < |cg.groups| &&
    |cg.groups[cg.beforeGroup[b]].before| == 1 && |cg.groups[cg.beforeGroup[b]].after| == 1
  }

  /** A pair is asserted when its group has one endpoint per side and every optimum contains it. */
  ghost predicate Asserted(cg: CandidateGroups, c: Component, cells: set<Cell>, x: Cell) {
    x.0 < |c.before| && InSome(cells, x) && SingletonGroup(cg, c.before[x.0]) && InEvery(cells, x)
  }

  /** A pair some optimum contains that is not asserted. */
  ghost predicate Residual(cg: CandidateGroups, c: Component, cells: set<Cell>, x: Cell) {
    x.0 < |c.before| && InSome(cells, x) && !(SingletonGroup(cg, c.before[x.0]) && InEvery(cells, x))
  }

  ghost predicate Visited(x: Cell, i: nat, j: nat) {
    x.0 < i || (x.0 == i && x.1 < j)
  }

  /** The endpoints a residual pair makes ambiguous: its own, or its whole group when the group has duplicates. */
  ghost predicate Clouds(cg: CandidateGroups, c: Component, x: Cell, before: bool, id: nat) {
    && x.0 < |c.before| && x.1 < |c.after|
    && c.before[x.0] in cg.beforeGroup && cg.beforeGroup[c.before[x.0]] < |cg.groups|
    && if SingletonGroup(cg, c.before[x.0]) then id == (if before then c.before[x.0] else c.after[x.1])
       else id in Side(cg.groups[cg.beforeGroup[c.before[x.0]]], before)
  }

  datatype Tally = Tally(forced: seq<Cell>, possible: seq<Cell>, before: set<nat>, after: set<nat>, duplicate: bool)

  ghost predicate NoRepeats(s: seq<Pair>) {
    forall i, j :: 0 <= i < j < |s| ==> s[i] != s[j]
  }

  /** The tally describes exactly the cells visited so far. */
  ghost predicate Tallied(cg: CandidateGroups, c: Component, cells: set<Cell>, i: nat, j: nat, t: Tally) {
    && NoRepeats(t.forced) && NoRepeats(t.possible)
    && (forall x: Cell :: x in t.forced <==> Visited(x, i, j) && x.1 < |c.after| && Asserted(cg, c, cells, x))
    && (forall x: Cell :: x in t.possible <==> Visited(x, i, j) && x.1 < |c.after| && Residual(cg, c, cells, x))
    && (forall id :: id in t.before <==> exists x :: x in t.possible && Clouds(cg, c, x, true, id))
    && (forall id :: id in t.after <==> exists x :: x in t.possible && Clouds(cg, c, x, false, id))
    && (t.duplicate <==> exists x :: x in t.possible && x.0 < |c.before| && !SingletonGroup(cg, c.before[x.0]))
  }

  function AddForced(t: Tally, x: Cell): Tally {
    t.(forced := t.forced + [x])
  }

  function AddPossible(t: Tally, cg: CandidateGroups, c: Component, x: Cell): Tally
    requires x.0 < |c.before| && x.1 < |c.after|
    requires c.before[x.0] in cg.beforeGroup && cg.beforeGroup[c.before[x.0]] < |cg.groups|
  {
    var b := c.before[x.0];
    var g := cg.groups[cg.beforeGroup[b]];
    if SingletonGroup(cg, b) then
      t.(possible := t.possible + [x], before := t.before + {b}, after := t.after + {c.after[x.1]})
    else
      t.(possible := t.possible + [x], before := t.before + (set id | id in g.before),
         after := t.after + (set id | id in g.after), duplicate := true)
  }

  lemma TallyForced(cg: CandidateGroups, c: Component, cells: set<Cell>, i: nat, j: nat, t: Tally)
    requires Tallied(cg, c, cells, i, j, t) && i < |c.before| && j < |c.after| && Asserted(cg, c, cells, (i, j))
    ensures Tallied(cg, c, cells, i, j + 1, AddForced(t, (i, j)))
  {
    hide InSome, InEvery, Clouds, SingletonGroup;
    assert (i, j) !in t.forced;
  }

  lemma TallyPossible(cg: CandidateGroups, c: Component, cells: set<Cell>, i: nat, j: nat, t: Tally)
    requires Tallied(cg, c, cells, i, j, t) && i < |c.before| && j < |c.after| && Residual(cg, c, cells, (i, j))
    requires c.before[i] in cg.beforeGroup && cg.beforeGroup[c.before[i]] < |cg.groups|
    ensures Tallied(cg, c, cells, i, j + 1, AddPossible(t, cg, c, (i, j)))
  {
    var x: Cell := (i, j);
    var u := AddPossible(t, cg, c, x);
    NotBoth(cg, c, cells, x);
    assert u.forced == t.forced && u.possible == t.possible + [x];
    assert u.duplicate <==> t.duplicate || !SingletonGroup(cg, c.before[i]);
    forall id ensures id in u.before <==> id in t.before || Clouds(cg, c, x, true, id) {
    }
    forall id ensures id in u.after <==> id in t.after || Clouds(cg, c, x, false, id) {
    }
    TallyExtended(cg, c, cells, i, j, t, u);
  }

  lemma TallyExtended(cg: CandidateGroups, c: Component, cells: set<Cell>, i: nat, j: nat, t: Tally, u: Tally)
    requires Tallied(cg, c, cells, i, j, t) && i < |c.before| && j < |c.after|
    requires Residual(cg, c, cells, (i, j)) && !Asserted(cg, c, cells, (i, j))
    requires u.forced == t.forced && u.possible == t.possible + [(i, j)]
    requires u.duplicate <==> t.duplicate || !SingletonGroup(cg, c.before[i])
    requires forall id :: id in u.before <==> id in t.before || Clouds(cg, c, (i, j), true, id)
    requires forall id :: id in u.after <==> id in t.after || Clouds(cg, c, (i, j), false, id)
    ensures Tallied(cg, c, cells, i, j + 1, u)
  {
    hide Asserted, Residual, Clouds, SingletonGroup;
    var x: Cell := (i, j);
    assert x !in t.possible;
    assert forall y :: y in u.possible <==> y in t.possible || y == x;
  }

  lemma NotBoth(cg: CandidateGroups, c: Component, cells: set<Cell>, x: Cell)
    ensures !(Asserted(cg, c, cells, x) && Residual(cg, c, cells, x))
  {
  }

  lemma TallySkip(cg: CandidateGroups, c: Component, cells: set<Cell>, i: nat, j: nat, t: Tally)
    requires Tallied(cg, c, cells, i, j, t) && !InSome(cells, (i, j))
    ensures Tallied(cg, c, cells, i, j + 1, t)
  {
    hide InEvery, Clouds, SingletonGroup;
  }

  lemma TallyRow(cg: CandidateGroups, c: Component, cells: set<Cell>, i: nat, t: Tally)
    requires Tallied(cg, c, cells, i, |c.after|, t)
    ensures Tallied(cg, c, cells, i + 1, 0, t)
  {
    hide InSome, InEvery, Clouds, SingletonGroup, Asserted, Residual;
  }

  lemma TallyStart(cg: CandidateGroups, c: Component, cells: set<Cell>)
    ensures Tallied(cg, c, cells, 0, 0, Tally([], [], {}, {}, false))
  {
  }

  // ----- what one component reports

  /** The cells of the component whose pairs are listed. */
  ghost function CellsOfPairs(c: Component, pairs: seq<Pair>): set<Cell> {
    set i: nat, j: nat | i < |c.before| && j < |c.after| && (c.before[i], c.after[j]) in pairs :: (i, j)
  }

  /** The listed pairs are exactly the residual choice, the asserted pairs exactly the forced part, and the number
      to select completes them to the optimum. */
  ghost predicate ExactEncoding(cells: set<Cell>, c: Component, forced: seq<Pair>, required: nat, possible: seq<Pair>) {
    && CellsOfPairs(c, possible) == Possible(cells)
    && CellsOfPairs(c, forced) == Forced(cells)
    && |possible| == |Possible(cells)| && |forced| == |Forced(cells)|
    && Optimum(cells, |Forced(cells)| + required)
    && 0 < required < |possible|
  }

  ghost predicate DuplicatesPossible(l: Tree, r: Tree, m: Mapping, cg: CandidateGroups, c: Component) {
    exists b, a :: PairInSome(l, r, m, c.before, c.after, b, a) && !SingletonGroup(cg, b)
  }

  ghost predicate AllScanned(cg: CandidateGroups, c: Component) {
    forall g :: g in c.groups && g < |cg.groups| ==> cg.groups[g].scanComplete
  }

  /** In a component that can be aligned, exactly a possible pair of a duplicate group rules an exact constraint out. */
  ghost predicate ConstraintMeans(l: Tree, r: Tree, m: Mapping, cg: CandidateGroups, c: Component, forced: seq<Pair>,
                                  constraint: Constraint)
  {
    match constraint
    case ExactOrderedAlignment(required, possible) =>
      WithinAlignmentLimit(|c.before|, |c.after|) && !DuplicatesPossible(l, r, m, cg, c) &&
      ExactEncoding(RegionCells(l, r, m, c.before, c.after), c, forced, required, possible)
    case SymbolicAbstention(DuplicateSymmetry) =>
      WithinAlignmentLimit(|c.before|, |c.after|) && DuplicatesPossible(l, r, m, cg, c)
    case SymbolicAbstention(ComponentLimit) =>
      !WithinAlignmentLimit(|c.before|, |c.after|) && AllScanned(cg, c)
    case SymbolicAbstention(CandidateScanLimit) =>
      !WithinAlignmentLimit(|c.before|, |c.after|) && !AllScanned(cg, c)
  }

  ghost predicate Clouded(ambiguities: seq<Ambiguity>, b: nat, a: nat) {
    exists k :: 0 <= k < |ambiguities| && b in ambiguities[k].before && a in ambiguities[k].after
  }

  /** What is asserted is in every optimum; what some optimum contains is asserted or ambiguous; no endpoint is
      both; and the constraint says exactly what is left open. */
  ghost predicate Reports(l: Tree, r: Tree, m: Mapping, cg: CandidateGroups, c: Component, o: Outcome) {
    && NoRepeats(o.forced)
    && (forall p :: p in o.forced ==> p.0 in c.before && p.1 in c.after &&
                                      PairInEvery(l, r, m, c.before, c.after, p.0, p.1) && SingletonGroup(cg, p.0))
    && (forall b, a :: b in c.before && a in c.after && PairInSome(l, r, m, c.before, c.after, b, a) ==>
                         (b, a) in o.forced || Clouded(o.ambiguities, b, a))
    && |o.ambiguities| <= 1
    && (forall k :: 0 <= k < |o.ambiguities| ==> AmbiguityFits(l, r, m, cg, c, o.forced, o.ambiguities[k]))
  }

  ghost predicate AmbiguityFits(l: Tree, r: Tree, m: Mapping, cg: CandidateGroups, c: Component, forced: seq<Pair>,
                                ambiguity: Ambiguity)
  {
    && ambiguity.before != [] && ambiguity.after != []
    && SubList(ambiguity.before, c.before) && SubList(ambiguity.after, c.after)
    && (forall p :: p in forced ==> p.0 !in ambiguity.before && p.1 !in ambiguity.after)
    && ConstraintMeans(l, r, m, cg, c, forced, ambiguity.constraint)
  }

  /** A component small enough to align holds no class whose scan was cut short, so its groups are whole components of
      the compatibility graph. */
  lemma AlignedIsScanned(l: Tree, r: Tree, m: Mapping, cg: CandidateGroups, befores: seq<nat>, afters: seq<nat>,
                         c: Component)
    requires InRegion(l, r, m, cg, befores, afters, c) && WithinAlignmentLimit(|c.before|, |c.after|)
    ensures AllScanned(cg, c)
    ensures forall g :: g in c.groups && g < |cg.groups| ==>
              IsComponent(RegionEdges(l, r, m, befores, afters), cg.groups[g])
  {
    hide WellFormed, AllGroupsDisjoint, Indexed, ComponentExact, IsComponent, SameShape;
    RegionIsValid(l, r, m, cg, befores, afters, c);
    forall g | g in c.groups && g < |cg.groups|
      ensures cg.groups[g].scanComplete && IsComponent(RegionEdges(l, r, m, befores, afters), cg.groups[g])
    {
      assert RegionGroup(l, r, m, befores, afters, cg.groups[g]);
      SubListSize(cg.groups[g].before, c.before);
      SubListSize(cg.groups[g].after, c.after);
      SmallGroup(|cg.groups[g].before|, |cg.groups[g].after|);
    }
  }

  lemma SmallGroup(before: nat, after: nat)
    requires WithinAlignmentLimit(before, after)
    ensures before * after <= ORDERED_ALIGNMENT_CANDIDATE_SCAN_LIMIT
  {
    assert before * after <= 64 * after;
  }

  /** The exact constraint means what it says: a set of listed pairs satisfies it iff, joined with the asserted
      pairs, it is a maximum ordered alignment of the component. */
  lemma ExactConstraintEncodes(cells: set<Cell>, c: Component, forced: seq<Pair>, required: nat, possible: seq<Pair>,
                               choice: set<Cell>)
    requires ExactEncoding(cells, c, forced, required, possible)
    ensures Resolution(CellsOfPairs(c, possible), required, choice) <==>
            choice !! CellsOfPairs(c, forced) && Maximum(cells, choice + CellsOfPairs(c, forced))
  {
    hide InEvery, InSome, CellsOfPairs, Chains.Forced, Chains.Possible;
    ResidualExact(cells, |Forced(cells)| + required, choice);
  }

  // ----- from cells to pairs of ids

  ghost predicate CellsInRange(c: Component, cells: seq<Cell>) {
    forall k :: 0 <= k < |cells| ==> cells[k].0 < |c.before| && cells[k].1 < |c.after|
  }

  function PairsOf(c: Component, cells: seq<Cell>): (s: seq<Pair>)
    requires CellsInRange(c, cells)
    ensures |s| == |cells| && forall k :: 0 <= k < |s| ==> s[k] == (c.before[cells[k].0], c.after[cells[k].1])
  {
    seq(|cells|, k requires 0 <= k < |cells| => (c.before[cells[k].0], c.after[cells[k].1]))
  }

  lemma PairsMembers(c: Component, cells: seq<Cell>)
    requires CellsInRange(c, cells)
    requires Distinct(c.before) && Distinct(c.after) && NoRepeats(cells)
    ensures NoRepeats(PairsOf(c, cells))
    ensures forall x: Cell :: x.0 < |c.before| && x.1 < |c.after| ==>
                                ((c.before[x.0], c.after[x.1]) in PairsOf(c, cells) <==> x in cells)
    ensures CellsOfPairs(c, PairsOf(c, cells)) == (set x | x in cells)
    ensures |PairsOf(c, cells)| == |set x | x in cells|
  {
    hide NoRepeats, Distinct;
    var pairs := PairsOf(c, cells);
    forall x: Cell | x.0 < |c.before| && x.1 < |c.after|
      ensures (c.before[x.0], c.after[x.1]) in pairs <==> x in cells
    {
      PairListed(c, cells, x);
    }
    forall x | x in cells ensures x.0 < |c.before| && x.1 < |c.after| {
    }
    assert CellsOfPairs(c, pairs) == (set x | x in cells);
    PairsDistinct(c, cells);
    ListSize(cells);
  }

  lemma PairListed(c: Component, cells: seq<Cell>, x: Cell)
    requires CellsInRange(c, cells)
    requires Distinct(c.before) && Distinct(c.after) && x.0 < |c.before| && x.1 < |c.after|
    ensures (c.before[x.0], c.after[x.1]) in PairsOf(c, cells) <==> x in cells
  {
    var pairs := PairsOf(c, cells);
    if (c.before[x.0], c.after[x.1]) in pairs {
      var k :| 0 <= k < |pairs| && pairs[k] == (c.before[x.0], c.after[x.1]);
      assert cells[k] == x;
    }
    if x in cells {
      var k :| 0 <= k < |cells| && cells[k] == x;
      assert pairs[k] == (c.before[x.0], c.after[x.1]);
    }
  }

  lemma PairsDistinct(c: Component, cells: seq<Cell>)
    requires CellsInRange(c, cells)
    requires Distinct(c.before) && Distinct(c.after) && NoRepeats(cells)
    ensures NoRepeats(PairsOf(c, cells))
  {
    var pairs := PairsOf(c, cells);
    forall i, j | 0 <= i < j < |pairs| ensures pairs[i] != pairs[j] {
      assert cells[i] != cells[j];
    }
  }

  predicate PairLe(p: Pair, q: Pair) {
    p.0 < q.0 || (p.0 == q.0 && p.1 <= q.1)
  }

  lemma SortKeeps(s: seq<Pair>)
    requires NoRepeats(s)
    ensures var t := Sorting.Sort(PairLe, s); NoRepeats(t) && |t| == |s| && forall p :: p in t <==> p in s
  {
    Sorting.SortMembers(PairLe, Uniqueness.Itself, s);
  }

  function Filter(ids: seq<nat>, keep: set<nat>): (s: seq<nat>)
    ensures forall id :: id in s <==> id in ids && id in keep
  {
    if ids == [] then []
    else
      var last := ids[|ids| - 1];
      assert ids == ids[..|ids| - 1] + [last];
      if last in keep then Filter(ids[..|ids| - 1], keep) + [last] else Filter(ids[..|ids| - 1], keep)
  }

  lemma {:induction false} FilterIsSubList(ids: seq<nat>, keep: set<nat>)
    requires Distinct(ids)
    ensures SubList(Filter(ids, keep), ids)
    decreases |ids|
  {
    if ids != [] {
      var init, last := ids[..|ids| - 1], ids[|ids| - 1];
      assert ids == init + [last];
      assert last !in init;
      FilterIsSubList(init, keep);
      SubListSnoc(Filter(init, keep), init, last);
    }
  }

  // ----- the tally of a whole component is a report

  /** A completed tally, in the component it was taken of. */
  ghost predicate Complete(l: Tree, r: Tree, m: Mapping, cg: CandidateGroups, befores: seq<nat>, afters: seq<nat>,
                           c: Component, t: Tally)
  {
    && InRegion(l, r, m, cg, befores, afters, c)
    && Tallied(cg, c, RegionCells(l, r, m, c.before, c.after), |c.before|, 0, t)
  }

  lemma SomeIsCell(cells: set<Cell>, x: Cell)
    requires InSome(cells, x)
    ensures x in cells
  {
  }

  lemma TallyInRange(l: Tree, r: Tree, m: Mapping, cg: CandidateGroups, befores: seq<nat>, afters: seq<nat>,
                     c: Component, t: Tally)
    requires Complete(l, r, m, cg, befores, afters, c, t)
    ensures CellsInRange(c, t.forced)
    ensures CellsInRange(c, t.possible)
  {
    hide InRegion, InSome, InEvery, Clouds, SingletonGroup, RegionCells;
    forall k | 0 <= k < |t.forced| ensures t.forced[k].0 < |c.before| && t.forced[k].1 < |c.after| {
      assert t.forced[k] in t.forced;
    }
    forall k | 0 <= k < |t.possible| ensures t.possible[k].0 < |c.before| && t.possible[k].1 < |c.after| {
      assert t.possible[k] in t.possible;
    }
  }

  /** Cells of a component lie in one group. */
  lemma CellInGroup(l: Tree, r: Tree, m: Mapping, cg: CandidateGroups, befores: seq<nat>, afters: seq<nat>,
                    c: Component,
                    x: Cell)
    requires InRegion(l, r, m, cg, befores, afters, c) && x in RegionCells(l, r, m, c.before, c.after)
    ensures x.0 < |c.before| && x.1 < |c.after|
    ensures c.before[x.0] in cg.beforeGroup && c.after[x.1] in cg.afterGroup
    ensures cg.beforeGroup[c.before[x.0]] == cg.afterGroup[c.after[x.1]] < |cg.groups|
    ensures c.before[x.0] in cg.groups[cg.beforeGroup[c.before[x.0]]].before
    ensures c.after[x.1] in cg.groups[cg.beforeGroup[c.before[x.0]]].after
  {
    hide Compatible, WellFormed, AllGroupsDisjoint, RegionGroup, ComponentExact;
    ComponentMember(l, r, m, cg, befores, afters, c, x.0, x.1);
    CompatibleActive(l, r, m, cg, befores, afters, c.before[x.0], c.after[x.1]);
    assert c.before[x.0] in Side(cg.groups[cg.beforeGroup[c.before[x.0]]], true);
    assert c.after[x.1] in Side(cg.groups[cg.afterGroup[c.after[x.1]]], false);
  }

  /** A cell makes its own endpoints ambiguous. */
  lemma CloudsItself(l: Tree, r: Tree, m: Mapping, cg: CandidateGroups, befores: seq<nat>, afters: seq<nat>,
                     c: Component,
                     x: Cell)
    requires InRegion(l, r, m, cg, befores, afters, c) && x in RegionCells(l, r, m, c.before, c.after)
    ensures x.0 < |c.before| && x.1 < |c.after|
    ensures Clouds(cg, c, x, true, c.before[x.0]) && Clouds(cg, c, x, false, c.after[x.1])
  {
    hide InRegion, RegionCells;
    CellInGroup(l, r, m, cg, befores, afters, c, x);
  }

  /** An asserted pair shares no endpoint with what a residual pair makes ambiguous. */
  lemma AssertedNotClouded(l: Tree, r: Tree, m: Mapping, cg: CandidateGroups, befores: seq<nat>, afters: seq<nat>,
                           c: Component, x: Cell, y: Cell)
    requires InRegion(l, r, m, cg, befores, afters, c)
    requires x in RegionCells(l, r, m, c.before, c.after) && y in RegionCells(l, r, m, c.before, c.after)
    requires Asserted(cg, c, RegionCells(l, r, m, c.before, c.after), x)
    requires Residual(cg, c, RegionCells(l, r, m, c.before, c.after), y)
    ensures x.1 < |c.after| && !Clouds(cg, c, y, true, c.before[x.0]) && !Clouds(cg, c, y, false, c.after[x.1])
  {
    hide InRegion, RegionCells, Asserted, Residual, Clouds, SingletonGroup, ValidGroups;
    CellInGroup(l, r, m, cg, befores, afters, c, x);
    CellInGroup(l, r, m, cg, befores, afters, c, y);
    RegionIsValid(l, r, m, cg, befores, afters, c);
    if SameGroup(cg, c, x, y) {
      AssertedIsSingleton(cg, c, RegionCells(l, r, m, c.before, c.after), x);
      SingletonCell(cg, c, x, y);
      NotBoth(cg, c, RegionCells(l, r, m, c.before, c.after), x);
    } else {
      OtherGroupNotClouded(l, r, m, cg, befores, afters, c, x, y);
    }
  }

  lemma AssertedIsSingleton(cg: CandidateGroups, c: Component, cells: set<Cell>, x: Cell)
    requires Asserted(cg, c, cells, x)
    ensures x.0 < |c.before| && SingletonGroup(cg, c.before[x.0])
  {
  }

  lemma OtherGroupNotClouded(l: Tree, r: Tree, m: Mapping, cg: CandidateGroups, befores: seq<nat>, afters: seq<nat>,
                             c: Component, x: Cell, y: Cell)
    requires ValidGroups(l, r, m, befores, afters, cg)
    requires x.0 < |c.before| && y.0 < |c.before| && x.1 < |c.after| && y.1 < |c.after|
    requires c.before[x.0] in cg.beforeGroup && c.before[y.0] in cg.beforeGroup && !SameGroup(cg, c, x, y)
    requires c.after[x.1] in cg.afterGroup && cg.afterGroup[c.after[x.1]] == cg.beforeGroup[c.before[x.0]]
    requires c.after[y.1] in cg.afterGroup && cg.afterGroup[c.after[y.1]] == cg.beforeGroup[c.before[y.0]]
    ensures !Clouds(cg, c, y, true, c.before[x.0]) && !Clouds(cg, c, y, false, c.after[x.1])
  {
    hide ValidGroups, SingletonGroup;
    if Clouds(cg, c, y, true, c.before[x.0]) && !SingletonGroup(cg, c.before[y.0]) {
      IndexedMember(l, r, m, cg, befores, afters, c.before[x.0], true, cg.beforeGroup[c.before[y.0]]);
    }
    if Clouds(cg, c, y, false, c.after[x.1]) && !SingletonGroup(cg, c.before[y.0]) {
      IndexedMember(l, r, m, cg, befores, afters, c.after[x.1], false, cg.beforeGroup[c.before[y.0]]);
    }
  }

  ghost predicate SameGroup(cg: CandidateGroups, c: Component, x: Cell, y: Cell)
    requires x.0 < |c.before| && y.0 < |c.before|
    requires c.before[x.0] in cg.beforeGroup && c.before[y.0] in cg.beforeGroup
  {
    cg.beforeGroup[c.before[x.0]] == cg.beforeGroup[c.before[y.0]]
  }

  /** A group with one endpoint per side has only one cell. */
  lemma SingletonCell(cg: CandidateGroups, c: Component, x: Cell, y: Cell)
    requires x.0 < |c.before| && y.0 < |c.before| && x.1 < |c.after| && y.1 < |c.after|
    requires Distinct(c.before) && Distinct(c.after)
    requires c.before[x.0] in cg.beforeGroup && c.before[y.0] in cg.beforeGroup && SameGroup(cg, c, x, y)
    requires SingletonGroup(cg, c.before[x.0])
    requires var g := cg.groups[cg.beforeGroup[c.before[x.0]]];
             c.before[x.0] in g.before && c.before[y.0] in g.before && c.after[x.1] in g.after &&
             c.after[y.1] in g.after
    ensures x == y
  {
  }

  lemma IndexedMember(l: Tree, r: Tree, m: Mapping, cg: CandidateGroups, befores: seq<nat>, afters: seq<nat>, id: nat,
                      before: bool, g: nat)
    requires ValidGroups(l, r, m, befores, afters, cg) && g < |cg.groups| && id in Side(cg.groups[g], before)
    ensures if before then id in cg.beforeGroup && cg.beforeGroup[id] == g
            else id in cg.afterGroup && cg.afterGroup[id] == g
  {
    hide WellFormed, AllGroupsDisjoint, RegionGroup;
  }

  lemma TallyForcedReports(l: Tree, r: Tree, m: Mapping, cg: CandidateGroups, befores: seq<nat>, afters: seq<nat>,
                           c: Component, t: Tally, p: Pair)
    requires Complete(l, r, m, cg, befores, afters, c, t)
    requires exists x :: x in t.forced && x.0 < |c.before| && x.1 < |c.after| && p == (c.before[x.0], c.after[x.1])
    ensures p.0 in c.before && p.1 in c.after && SingletonGroup(cg, p.0)
    ensures PairInEvery(l, r, m, c.before, c.after, p.0, p.1)
  {
    hide InRegion, InEvery, Clouds, SingletonGroup;
    var cells := RegionCells(l, r, m, c.before, c.after);
    var x :| x in t.forced && x.0 < |c.before| && x.1 < |c.after| && p == (c.before[x.0], c.after[x.1]);
    SomeIsCell(cells, x);
    assert At(c.before, c.after, p.0, p.1, x);
  }

  /** Every pair of some optimum is tallied, as asserted or as possible. */
  lemma TallyCovers(l: Tree, r: Tree, m: Mapping, cg: CandidateGroups, befores: seq<nat>, afters: seq<nat>,
                    c: Component, t: Tally, b: nat, a: nat) returns (x: Cell)
    requires Complete(l, r, m, cg, befores, afters, c, t) && PairInSome(l, r, m, c.before, c.after, b, a)
    ensures At(c.before, c.after, b, a, x) && (x in t.forced || x in t.possible)
    ensures x in t.possible ==> b in t.before && a in t.after
  {
    hide InRegion, InEvery, Clouds, SingletonGroup;
    var cells := RegionCells(l, r, m, c.before, c.after);
    x :| At(c.before, c.after, b, a, x) && x in cells && InSome(cells, x);
    CloudsItself(l, r, m, cg, befores, afters, c, x);
  }

  lemma TallyApart(l: Tree, r: Tree, m: Mapping, cg: CandidateGroups, befores: seq<nat>, afters: seq<nat>,
                   c: Component, t: Tally, x: Cell)
    requires Complete(l, r, m, cg, befores, afters, c, t) && x in t.forced
    ensures x.0 < |c.before| && x.1 < |c.after| && c.before[x.0] !in t.before && c.after[x.1] !in t.after
  {
    hide InRegion, InEvery, InSome, Clouds, SingletonGroup, RegionCells;
    var cells := RegionCells(l, r, m, c.before, c.after);
    SomeIsCell(cells, x);
    forall y | y in t.possible
      ensures !Clouds(cg, c, y, true, c.before[x.0]) && x.1 < |c.after| && !Clouds(cg, c, y, false, c.after[x.1])
    {
      SomeIsCell(cells, y);
      AssertedNotClouded(l, r, m, cg, befores, afters, c, x, y);
    }
  }

  /** Without duplicate groups the asserted cells are all the forced ones and the residual cells all the possible
      ones. */
  lemma TallyIsResidual(l: Tree, r: Tree, m: Mapping, cg: CandidateGroups, befores: seq<nat>, afters: seq<nat>,
                        c: Component, t: Tally)
    requires Complete(l, r, m, cg, befores, afters, c, t) && !t.duplicate
    ensures (set x | x in t.forced) == Forced(RegionCells(l, r, m, c.before, c.after))
    ensures (set x | x in t.possible) == Possible(RegionCells(l, r, m, c.before, c.after))
  {
    hide InRegion, InEvery, InSome, Clouds, SingletonGroup;
    var cells := RegionCells(l, r, m, c.before, c.after);
    forall x | x in Forced(cells) ensures x in t.forced {
      var a := MaximumExists(cells);
      InEveryInSome(cells, x, a);
      assert !(x in t.possible);
    }
    forall x | x in t.forced ensures x in Forced(cells) {
      SomeIsCell(cells, x);
    }
    forall x | x in t.possible ensures x in Possible(cells) {
      SomeIsCell(cells, x);
    }
    forall x | x in Possible(cells) ensures x in t.possible {
    }
  }

  lemma InEveryInSome(cells: set<Cell>, x: Cell, a: set<Cell>)
    requires InEvery(cells, x) && Maximum(cells, a)
    ensures InSome(cells, x)
  {
  }

  lemma TallyDistinct(cg: CandidateGroups, c: Component, cells: set<Cell>, i: nat, j: nat, t: Tally)
    requires Tallied(cg, c, cells, i, j, t)
    ensures NoRepeats(t.forced) && NoRepeats(t.possible)
  {
  }

  lemma SamePairsSameCells(c: Component, s: seq<Pair>, t: seq<Pair>)
    requires forall p :: p in s <==> p in t
    ensures CellsOfPairs(c, s) == CellsOfPairs(c, t)
  {
  }

  lemma TallyExact(l: Tree, r: Tree, m: Mapping, cg: CandidateGroups, befores: seq<nat>, afters: seq<nat>,
                   c: Component, t: Tally, optimum: nat, forced: seq<Pair>)
    requires Complete(l, r, m, cg, befores, afters, c, t) && !t.duplicate && t.possible != []
    requires Optimum(RegionCells(l, r, m, c.before, c.after), optimum)
    requires CellsInRange(c, t.forced) && CellsInRange(c, t.possible)
    requires |forced| == |t.forced| && forall p :: p in forced <==> p in PairsOf(c, t.forced)
    ensures |forced| <= optimum
    ensures ExactEncoding(RegionCells(l, r, m, c.before, c.after), c, forced, optimum - |forced|,
                          PairsOf(c, t.possible))
  {
    hide *;
    var cells := RegionCells(l, r, m, c.before, c.after);
    TallyCells(l, r, m, cg, befores, afters, c, t, forced);
    EncodingComplete(cells, c, forced, optimum, PairsOf(c, t.possible));
  }

  lemma TallyCells(l: Tree, r: Tree, m: Mapping, cg: CandidateGroups, befores: seq<nat>, afters: seq<nat>,
                   c: Component, t: Tally, forced: seq<Pair>)
    requires Complete(l, r, m, cg, befores, afters, c, t) && !t.duplicate && t.possible != []
    requires CellsInRange(c, t.forced) && CellsInRange(c, t.possible)
    requires |forced| == |t.forced| && forall p :: p in forced <==> p in PairsOf(c, t.forced)
    ensures var cells, possible := RegionCells(l, r, m, c.before, c.after), PairsOf(c, t.possible);
            CellsOfPairs(c, forced) == Forced(cells) && |forced| == |Forced(cells)| &&
            CellsOfPairs(c, possible) == Possible(cells) && |possible| == |Possible(cells)| > 0
  {
    hide InRegion, InEvery, InSome, RegionCells, Optimum, Forced, Possible, Tallied, PairsOf, NoRepeats;
    hide CellsInRange, CellsOfPairs, NoRepeats;
    var cells := RegionCells(l, r, m, c.before, c.after);
    RegionIsValid(l, r, m, cg, befores, afters, c);
    TallyDistinct(cg, c, cells, |c.before|, 0, t);
    PairsMembers(c, t.forced);
    PairsMembers(c, t.possible);
    TallyIsResidual(l, r, m, cg, befores, afters, c, t);
    SamePairsSameCells(c, forced, PairsOf(c, t.forced));
    assert t.possible[0] in (set x | x in t.possible);
  }

  lemma EncodingComplete(cells: set<Cell>, c: Component, forced: seq<Pair>, optimum: nat, possible: seq<Pair>)
    requires Optimum(cells, optimum)
    requires CellsOfPairs(c, forced) == Forced(cells) && |forced| == |Forced(cells)|
    requires CellsOfPairs(c, possible) == Possible(cells) && |possible| == |Possible(cells)| > 0
    ensures |forced| <= optimum && ExactEncoding(cells, c, forced, optimum - |forced|, possible)
  {
    hide Optimum, Forced, Possible, CellsOfPairs;
    ResidualLeavesChoice(cells, optimum);
  }

  // ----- one component

  function AmbiguityOf(c: Component, t: Tally, required: nat): Ambiguity
    requires CellsInRange(c, t.possible)
  {
    Ambiguity(Filter(c.before, t.before), Filter(c.after, t.after),
              if t.duplicate then SymbolicAbstention(DuplicateSymmetry)
              else ExactOrderedAlignment(required, PairsOf(c, t.possible)))
  }

  function OutcomeOf(c: Component, t: Tally, required: nat): Outcome
    requires CellsInRange(c, t.forced) && CellsInRange(c, t.possible)
  {
    var forced := Sorting.Sort(PairLe, PairsOf(c, t.forced));
    Outcome(forced, if t.possible == [] then [] else [AmbiguityOf(c, t, required)])
  }

  lemma ForcedMembers(c: Component, t: Tally, required: nat)
    requires CellsInRange(c, t.forced) && CellsInRange(c, t.possible)
    requires Distinct(c.before) && Distinct(c.after) && NoRepeats(t.forced)
    ensures var o := OutcomeOf(c, t, required);
            NoRepeats(o.forced) && |o.forced| == |t.forced| &&
            (forall p :: p in o.forced <==> p in PairsOf(c, t.forced)) &&
            (forall p :: p in o.forced ==> exists x :: x in t.forced && x.0 < |c.before| && x.1 < |c.after| &&
                                                       p == (c.before[x.0], c.after[x.1]))
  {
    hide NoRepeats, Distinct;
    PairsDistinct(c, t.forced);
    SortKeeps(PairsOf(c, t.forced));
    var o := OutcomeOf(c, t, required);
    forall p | p in o.forced
      ensures exists x :: x in t.forced && x.0 < |c.before| && x.1 < |c.after| && p == (c.before[x.0], c.after[x.1])
    {
      var k :| 0 <= k < |t.forced| && PairsOf(c, t.forced)[k] == p;
      assert t.forced[k] in t.forced;
    }
  }

  lemma TallyReports(l: Tree, r: Tree, m: Mapping, cg: CandidateGroups, befores: seq<nat>, afters: seq<nat>,
                     c: Component, t: Tally, optimum: nat, required: nat)
    requires Complete(l, r, m, cg, befores, afters, c, t) && WithinAlignmentLimit(|c.before|, |c.after|)
    requires Optimum(RegionCells(l, r, m, c.before, c.after), optimum)
    requires CellsInRange(c, t.forced) && CellsInRange(c, t.possible)
    requires required == (if |t.forced| <= optimum then optimum - |t.forced| else 0)
    ensures Reports(l, r, m, cg, c, OutcomeOf(c, t, required))
  {
    hide InRegion, Complete, PairInEvery, PairInSome, ConstraintMeans, SingletonGroup;
    hide PairsOf, Optimum, Distinct, WithinAlignmentLimit;
    var o := OutcomeOf(c, t, required);
    TallyBasics(l, r, m, cg, befores, afters, c, t);
    ForcedMembers(c, t, required);
    forall p | p in o.forced
      ensures p.0 in c.before && p.1 in c.after && SingletonGroup(cg, p.0)
      ensures PairInEvery(l, r, m, c.before, c.after, p.0, p.1)
      ensures p.0 !in t.before && p.1 !in t.after
    {
      var x :| x in t.forced && x.0 < |c.before| && x.1 < |c.after| && p == (c.before[x.0], c.after[x.1]);
      TallyForcedReports(l, r, m, cg, befores, afters, c, t, p);
      TallyApart(l, r, m, cg, befores, afters, c, t, x);
    }
    forall b, a | b in c.before && a in c.after && PairInSome(l, r, m, c.before, c.after, b, a)
      ensures (b, a) in o.forced || Clouded(o.ambiguities, b, a)
    {
      var x := TallyCovers(l, r, m, cg, befores, afters, c, t, b, a);
      PairListed(c, t.forced, x);
      if x in t.possible {
        assert t.possible != [];
        assert b in o.ambiguities[0].before && a in o.ambiguities[0].after;
      } else {
        assert (b, a) in PairsOf(c, t.forced);
      }
    }
    if t.possible != [] {
      TallyAmbiguity(l, r, m, cg, befores, afters, c, t, optimum, required, o.forced);
    }
  }

  lemma TallyBasics(l: Tree, r: Tree, m: Mapping, cg: CandidateGroups, befores: seq<nat>, afters: seq<nat>,
                    c: Component, t: Tally)
    requires Complete(l, r, m, cg, befores, afters, c, t)
    ensures Distinct(c.before) && Distinct(c.after) && NoRepeats(t.forced) && NoRepeats(t.possible)
  {
    hide InRegion, Tallied, RegionCells;
    RegionIsValid(l, r, m, cg, befores, afters, c);
    TallyDistinct(cg, c, RegionCells(l, r, m, c.before, c.after), |c.before|, 0, t);
  }

  lemma TallyAmbiguity(l: Tree, r: Tree, m: Mapping, cg: CandidateGroups, befores: seq<nat>, afters: seq<nat>,
                       c: Component, t: Tally, optimum: nat, required: nat, forced: seq<Pair>)
    requires Complete(l, r, m, cg, befores, afters, c, t) && WithinAlignmentLimit(|c.before|, |c.after|)
    requires Optimum(RegionCells(l, r, m, c.before, c.after), optimum) && t.possible != []
    requires CellsInRange(c, t.forced) && CellsInRange(c, t.possible)
    requires required == (if |t.forced| <= optimum then optimum - |t.forced| else 0)
    requires |forced| == |t.forced| && forall p :: p in forced <==> p in PairsOf(c, t.forced)
    requires forall p :: p in forced ==> p.0 !in t.before && p.1 !in t.after
    ensures AmbiguityFits(l, r, m, cg, c, forced, AmbiguityOf(c, t, required))
  {
    hide InRegion, Complete, PairsOf, Optimum, WithinAlignmentLimit, ExactEncoding, Distinct, Filter, CellsInRange;
    hide DuplicatesPossible, RegionCells, PairInSome;
    TallyBasics(l, r, m, cg, befores, afters, c, t);
    FilterIsSubList(c.before, t.before);
    FilterIsSubList(c.after, t.after);
    var y := t.possible[0];
    PossiblePair(l, r, m, cg, befores, afters, c, t, y);
    var ambiguity := AmbiguityOf(c, t, required);
    assert c.before[y.0] in ambiguity.before && c.after[y.1] in ambiguity.after;
    if t.duplicate {
      TallyDuplicate(l, r, m, cg, befores, afters, c, t);
    } else {
      TallyNoDuplicate(l, r, m, cg, befores, afters, c, t);
      TallyExact(l, r, m, cg, befores, afters, c, t, optimum, forced);
    }
  }

  lemma PossiblePair(l: Tree, r: Tree, m: Mapping, cg: CandidateGroups, befores: seq<nat>, afters: seq<nat>,
                     c: Component, t: Tally, y: Cell)
    requires Complete(l, r, m, cg, befores, afters, c, t) && y in t.possible
    ensures y.0 < |c.before| && y.1 < |c.after| && c.before[y.0] in t.before && c.after[y.1] in t.after
    ensures PairInSome(l, r, m, c.before, c.after, c.before[y.0], c.after[y.1])
  {
    hide InRegion, InEvery, Clouds, SingletonGroup;
    SomeIsCell(RegionCells(l, r, m, c.before, c.after), y);
    assert At(c.before, c.after, c.before[y.0], c.after[y.1], y);
    CloudsItself(l, r, m, cg, befores, afters, c, y);
  }

  lemma TallyDuplicate(l: Tree, r: Tree, m: Mapping, cg: CandidateGroups, befores: seq<nat>, afters: seq<nat>,
                       c: Component, t: Tally)
    requires Complete(l, r, m, cg, befores, afters, c, t) && t.duplicate
    ensures DuplicatesPossible(l, r, m, cg, c)
  {
    hide InRegion, InEvery, InSome, Clouds, SingletonGroup, PairInSome;
    var y :| y in t.possible && y.0 < |c.before| && !SingletonGroup(cg, c.before[y.0]);
    PossiblePair(l, r, m, cg, befores, afters, c, t, y);
  }

  lemma TallyNoDuplicate(l: Tree, r: Tree, m: Mapping, cg: CandidateGroups, befores: seq<nat>, afters: seq<nat>,
                         c: Component, t: Tally)
    requires Complete(l, r, m, cg, befores, afters, c, t) && !t.duplicate
    ensures !DuplicatesPossible(l, r, m, cg, c)
  {
    hide InRegion, InEvery, InSome, Clouds, SingletonGroup, PairInSome;
    forall b, a | PairInSome(l, r, m, c.before, c.after, b, a) ensures SingletonGroup(cg, b) {
      var x := TallyCovers(l, r, m, cg, befores, afters, c, t, b, a);
      assert x in t.possible || Asserted(cg, c, RegionCells(l, r, m, c.before, c.after), x);
    }
  }

  lemma NothingPossible(l: Tree, r: Tree, m: Mapping, cg: CandidateGroups, c: Component)
    requires Optimum(RegionCells(l, r, m, c.before, c.after), 0)
    ensures Reports(l, r, m, cg, c, Outcome([], []))
  {
    var cells := RegionCells(l, r, m, c.before, c.after);
    forall x, a | Maximum(cells, a) ensures x !in a {
      OptimumIsMaximumSize(cells, 0, a);
    }
  }

  /** Every pair that qualifies is asserted, and the endpoints named ambiguous are exactly those of the pairs left open:
      the two ends of a pair between single nodes, or all members of its group. */
  ghost predicate Sharp(cg: CandidateGroups, c: Component, cells: set<Cell>, o: Outcome) {
    && (forall x: Cell :: Asserted(cg, c, cells, x) && x.1 < |c.after| ==> (c.before[x.0], c.after[x.1]) in o.forced)
    && (o.ambiguities == [] <==> forall x: Cell :: x.1 < |c.after| ==> !Residual(cg, c, cells, x))
    && (o.ambiguities != [] ==>
          (forall id :: id in o.ambiguities[0].before <==> id in c.before && LeftOpen(cg, c, cells, true, id)) &&
          (forall id :: id in o.ambiguities[0].after <==> id in c.after && LeftOpen(cg, c, cells, false, id)))
  }

  ghost predicate LeftOpen(cg: CandidateGroups, c: Component, cells: set<Cell>, onBefore: bool, id: nat) {
    exists x: Cell :: x.1 < |c.after| && Residual(cg, c, cells, x) && Clouds(cg, c, x, onBefore, id)
  }

  /** What a completed tally holds, without the order in which it was filled. */
  ghost predicate TallyOf(cg: CandidateGroups, c: Component, cells: set<Cell>, t: Tally) {
    && (forall x: Cell :: x in t.forced <==> x.1 < |c.after| && Asserted(cg, c, cells, x))
    && (forall x: Cell :: x in t.possible <==> x.1 < |c.after| && Residual(cg, c, cells, x))
    && (forall id :: id in t.before <==> exists x :: x in t.possible && Clouds(cg, c, x, true, id))
    && (forall id :: id in t.after <==> exists x :: x in t.possible && Clouds(cg, c, x, false, id))
  }

  lemma CompleteIsTally(l: Tree, r: Tree, m: Mapping, cg: CandidateGroups, befores: seq<nat>, afters: seq<nat>,
                        c: Component, t: Tally)
    requires Complete(l, r, m, cg, befores, afters, c, t)
    ensures TallyOf(cg, c, RegionCells(l, r, m, c.before, c.after), t)
  {
    hide InRegion, InEvery, InSome, Clouds, SingletonGroup, RegionCells, NoRepeats;
  }

  lemma TallySharp(l: Tree, r: Tree, m: Mapping, cg: CandidateGroups, befores: seq<nat>, afters: seq<nat>,
                   c: Component, t: Tally, required: nat)
    requires Complete(l, r, m, cg, befores, afters, c, t)
    requires CellsInRange(c, t.forced) && CellsInRange(c, t.possible)
    ensures Sharp(cg, c, RegionCells(l, r, m, c.before, c.after), OutcomeOf(c, t, required))
  {
    hide Complete, RegionCells, Asserted, Residual, Distinct, NoRepeats, LeftOpen, Sharp, TallyOf;
    TallyBasics(l, r, m, cg, befores, afters, c, t);
    CompleteIsTally(l, r, m, cg, befores, afters, c, t);
    TallyIsSharp(cg, c, RegionCells(l, r, m, c.before, c.after), t, required);
  }

  lemma TallyIsSharp(cg: CandidateGroups, c: Component, cells: set<Cell>, t: Tally, required: nat)
    requires TallyOf(cg, c, cells, t) && CellsInRange(c, t.forced) && CellsInRange(c, t.possible)
    requires Distinct(c.before) && Distinct(c.after) && NoRepeats(t.forced)
    ensures Sharp(cg, c, cells, OutcomeOf(c, t, required))
  {
    hide Asserted, Residual, Distinct, NoRepeats, Clouds, LeftOpen, Sorting.Sort, PairsOf;
    var o := OutcomeOf(c, t, required);
    ForcedMembers(c, t, required);
    TallyOpen(cg, c, cells, t);
    forall x: Cell | Asserted(cg, c, cells, x) && x.1 < |c.after|
      ensures x.0 < |c.before| && (c.before[x.0], c.after[x.1]) in o.forced
    {
      assert x in t.forced;
      PairListed(c, t.forced, x);
    }
  }

  lemma TallyOpen(cg: CandidateGroups, c: Component, cells: set<Cell>, t: Tally)
    requires forall x: Cell :: x in t.possible <==> x.1 < |c.after| && Residual(cg, c, cells, x)
    requires forall id :: id in t.before <==> exists x :: x in t.possible && Clouds(cg, c, x, true, id)
    requires forall id :: id in t.after <==> exists x :: x in t.possible && Clouds(cg, c, x, false, id)
    ensures forall id :: id in t.before <==> LeftOpen(cg, c, cells, true, id)
    ensures forall id :: id in t.after <==> LeftOpen(cg, c, cells, false, id)
    ensures t.possible == [] <==> forall x: Cell :: x.1 < |c.after| ==> !Residual(cg, c, cells, x)
  {
    hide Residual, Clouds;
    if t.possible != [] {
      assert t.possible[0] in t.possible;
    }
  }

  lemma NothingSharp(l: Tree, r: Tree, m: Mapping, cg: CandidateGroups, c: Component)
    requires Optimum(RegionCells(l, r, m, c.before, c.after), 0)
    ensures Sharp(cg, c, RegionCells(l, r, m, c.before, c.after), Outcome([], []))
  {
    var cells := RegionCells(l, r, m, c.before, c.after);
    forall x, a | Maximum(cells, a) ensures x !in a {
      OptimumIsMaximumSize(cells, 0, a);
    }
    hide RegionCells, Clouds, SingletonGroup;
  }

  /** Align one component: assert what every optimum of singleton groups contains, and describe the rest. */
  method BoundedComponentStableCore(l: Tree, r: Tree, m: Mapping, cg: CandidateGroups, ghost befores: seq<nat>,
                                    ghost afters: seq<nat>, c: Component) returns (o: Outcome)
    requires InRegion(l, r, m, cg, befores, afters, c) && WithinAlignmentLimit(|c.before|, |c.after|)
    ensures Reports(l, r, m, cg, c, o) && Sharp(cg, c, RegionCells(l, r, m, c.before, c.after), o)
  {
    hide Sharp;
    hide InRegion, RegionCells, Reports, Tallied, Cells, Optimum;
    hide Asserted, Residual, InSome, InEvery, WithinAlignmentLimit;
    var candidates := CandidateMatrix(l, r, m, cg, befores, afters, c);
    ghost var cells := RegionCells(l, r, m, c.before, c.after);
    var prefix := AlignmentPrefixScores(candidates, None);
    var suffix := AlignmentSuffixScores(candidates);
    var optimum := prefix[|c.before|, |c.after|];
    WholeMatrix(candidates);
    if optimum == 0 {
      NothingPossible(l, r, m, cg, c);
      NothingSharp(l, r, m, cg, c);
      return Outcome([], []);
    }
    var t := Tally([], [], {}, {}, false);
    TallyStart(cg, c, cells);
    for i := 0 to |c.before|
      invariant Tallied(cg, c, cells, i, 0, t)
      invariant IsPrefixTable(candidates, prefix) && IsSuffixTable(candidates, suffix)
    {
      for j := 0 to |c.after|
        invariant Tallied(cg, c, cells, i, j, t)
        invariant IsPrefixTable(candidates, prefix) && IsSuffixTable(candidates, suffix)
      {
        if CandidateOccursInOptimum(candidates, prefix, suffix, optimum, i, j) {
          ComponentMember(l, r, m, cg, befores, afters, c, i, j);
          var singleton := SingletonGroup(cg, c.before[i]);
          var forced := CandidateIsForced(candidates, optimum, i, j, singleton);
          Classify(cg, c, cells, (i, j));
          if forced {
            TallyForced(cg, c, cells, i, j, t);
            t := AddForced(t, (i, j));
          } else {
            TallyPossible(cg, c, cells, i, j, t);
            t := AddPossible(t, cg, c, (i, j));
          }
        } else {
          TallySkip(cg, c, cells, i, j, t);
        }
      }
      TallyRow(cg, c, cells, i, t);
    }
    TallyInRange(l, r, m, cg, befores, afters, c, t);
    var required := if |t.forced| <= optimum then optimum - |t.forced| else 0;
    TallyReports(l, r, m, cg, befores, afters, c, t, optimum, required);
    TallySharp(l, r, m, cg, befores, afters, c, t, required);
    o := OutcomeOf(c, t, required);
  }

  lemma Classify(cg: CandidateGroups, c: Component, cells: set<Cell>, x: Cell)
    requires x.0 < |c.before| && InSome(cells, x)
    ensures Asserted(cg, c, cells, x) <==> SingletonGroup(cg, c.before[x.0]) && InEvery(cells, x)
    ensures Residual(cg, c, cells, x) <==> !(SingletonGroup(cg, c.before[x.0]) && InEvery(cells, x))
  {
  }

  lemma ScannedByIndex(cg: CandidateGroups, c: Component)
    requires forall j :: 0 <= j < |c.groups| ==> c.groups[j] < |cg.groups|
    ensures AllScanned(cg, c) <==> forall j :: 0 <= j < |c.groups| ==> cg.groups[c.groups[j]].scanComplete
  {
    if forall j :: 0 <= j < |c.groups| ==> cg.groups[c.groups[j]].scanComplete {
      forall g | g in c.groups && g < |cg.groups| ensures cg.groups[g].scanComplete {
        var j :| 0 <= j < |c.groups| && c.groups[j] == g;
      }
    }
    forall j | 0 <= j < |c.groups| ensures AllScanned(cg, c) ==> cg.groups[c.groups[j]].scanComplete {
      assert c.groups[j] in c.groups;
    }
  }

  function OversizedOutcome(c: Component, scanComplete: bool): Outcome {
    var cause := if scanComplete then ComponentLimit else CandidateScanLimit;
    Outcome([], [Ambiguity(c.before, c.after, SymbolicAbstention(cause))])
  }

  /** A component above the cap asserts nothing and keeps all its endpoints; the cause says whether it was the size
      alone or also a scan that was cut short. */
  method OversizedAlignmentAmbiguities(ghost l: Tree, ghost r: Tree, ghost m: Mapping, cg: CandidateGroups,
                                       ghost befores: seq<nat>, ghost afters: seq<nat>, c: Component)
    returns (o: Outcome)
    requires InRegion(l, r, m, cg, befores, afters, c) && !WithinAlignmentLimit(|c.before|, |c.after|)
    ensures o.forced == [] && |o.ambiguities| == 1
    ensures o.ambiguities[0].before == c.before && o.ambiguities[0].after == c.after
    ensures o.ambiguities[0].constraint ==
            SymbolicAbstention(if AllScanned(cg, c) then ComponentLimit else CandidateScanLimit)
    ensures Reports(l, r, m, cg, c, o)
  {
    hide InRegion, Reports, WithinAlignmentLimit, WellFormed, ValidGroups, ValidIds;
    GroupsExist(l, r, m, cg, befores, afters, c);
    var scanComplete := true;
    for k := 0 to |c.groups|
      invariant scanComplete <==> forall j :: 0 <= j < k ==> cg.groups[c.groups[j]].scanComplete
    {
      scanComplete := scanComplete && cg.groups[c.groups[k]].scanComplete;
    }
    ScannedByIndex(cg, c);
    OversizedReports(l, r, m, cg, befores, afters, c, scanComplete);
    o := OversizedOutcome(c, scanComplete);
  }

  lemma GroupsExist(l: Tree, r: Tree, m: Mapping, cg: CandidateGroups, befores: seq<nat>, afters: seq<nat>,
                    c: Component)
    requires InRegion(l, r, m, cg, befores, afters, c)
    ensures forall j :: 0 <= j < |c.groups| ==> c.groups[j] < |cg.groups|
  {
    forall j | 0 <= j < |c.groups| ensures c.groups[j] < |cg.groups| {
      assert c.groups[j] in c.groups;
    }
  }

  lemma OversizedReports(l: Tree, r: Tree, m: Mapping, cg: CandidateGroups, befores: seq<nat>, afters: seq<nat>,
                         c: Component, scanComplete: bool)
    requires InRegion(l, r, m, cg, befores, afters, c) && !WithinAlignmentLimit(|c.before|, |c.after|)
    requires scanComplete <==> AllScanned(cg, c)
    ensures Reports(l, r, m, cg, c, OversizedOutcome(c, scanComplete))
  {
    hide InRegion, PairInEvery, PairInSome, WithinAlignmentLimit, AllScanned;
    RegionIsValid(l, r, m, cg, befores, afters, c);
    var o := OversizedOutcome(c, scanComplete);
    assert o.ambiguities[0].before == c.before && o.ambiguities[0].after == c.after;
  }
}
