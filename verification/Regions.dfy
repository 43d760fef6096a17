/** Splitting the children of a mapped pair at non-crossing exact anchors. */
module Regions {
  import opened Wrappers
  import opened Chains
  import opened Syntax
  import opened Buckets
  import opened Mappings

  datatype Region = Region(before: seq<nat>, after: seq<nat>)

  function UnmappedBefore(m: Mapping, ids: seq<nat>): (s: seq<nat>)
    ensures forall id :: id in s <==> id in ids && !Mapped(m, id)
  {
    if ids == [] then []
    else
      var last := ids[|ids| - 1];
      assert ids == ids[..|ids| - 1] + [last];
      var rest := UnmappedBefore(m, ids[..|ids| - 1]);
      if Mapped(m, last) then rest else rest + [last]
  }

  function UnmappedAfter(m: Mapping, ids: seq<nat>): (s: seq<nat>)
    ensures forall id :: id in s <==> id in ids && !AfterMapped(m, id)
  {
    if ids == [] then []
    else
      var last := ids[|ids| - 1];
      assert ids == ids[..|ids| - 1] + [last];
      var rest := UnmappedAfter(m, ids[..|ids| - 1]);
      if AfterMapped(m, last) then rest else rest + [last]
  }

  lemma {:induction false} UnmappedDistinct(m: Mapping, ids: seq<nat>)
    requires Distinct(ids)
    ensures Distinct(UnmappedBefore(m, ids)) && Distinct(UnmappedAfter(m, ids))
    decreases |ids|
  {
    if ids != [] {
      UnmappedDistinct(m, ids[..|ids| - 1]);
      assert ids[|ids| - 1] !in ids[..|ids| - 1];
    }
  }

  // ----- anchors and barriers

  /** The child at row x.0 is exactly mapped to the child at column x.1. */
  ghost predicate IsAnchor(m: Mapping, bc: seq<nat>, ac: seq<nat>, x: Cell) {
    x.0 < |bc| && x.1 < |ac| && MappedTo(m, bc[x.0], ac[x.1]) && Exact(m, bc[x.0])
  }

  predicate Compares(x: Cell, y: Cell) {
    x.0 == y.0 || ((x.0 < y.0) == (x.1 < y.1))
  }

  predicate CrossesNone(x: Cell, anchors: seq<Cell>) {
    forall y :: y in anchors ==> Compares(x, y)
  }

  function Barriers(anchors: seq<Cell>, all: seq<Cell>): (s: seq<Cell>)
    ensures forall x :: x in s <==> x in anchors && CrossesNone(x, all)
  {
    if anchors == [] then []
    else
      var last := anchors[|anchors| - 1];
      assert anchors == anchors[..|anchors| - 1] + [last];
      var rest := Barriers(anchors[..|anchors| - 1], all);
      if CrossesNone(last, all) then rest + [last] else rest
  }

  ghost predicate Ascending(s: seq<Cell>) {
    forall i, j :: 0 <= i < j < |s| ==> s[i].0 < s[j].0
  }

  /** Rows and columns increase together. */
  ghost predicate Ladder(s: seq<Cell>) {
    forall i, j :: 0 <= i < j < |s| ==> Before(s[i], s[j])
  }

  lemma {:induction false} BarriersAscend(anchors: seq<Cell>, all: seq<Cell>)
    requires Ascending(anchors)
    ensures Ascending(Barriers(anchors, all))
    decreases |anchors|
  {
    if anchors != [] {
      var init := anchors[..|anchors| - 1];
      BarriersAscend(init, all);
      forall x | x in Barriers(init, all) ensures x.0 < anchors[|anchors| - 1].0 {
        var i :| 0 <= i < |init| && init[i] == x;
      }
    }
  }

  /** Anchors that cross no other anchor form one order-preserving ladder. */
  lemma BarriersLadder(m: Mapping, bc: seq<nat>, ac: seq<nat>, anchors: seq<Cell>)
    requires Ascending(anchors) && forall x :: x in anchors ==> IsAnchor(m, bc, ac, x)
    requires forall i, j :: 0 <= i < j < |anchors| ==> anchors[i].1 != anchors[j].1
    ensures Ladder(Barriers(anchors, anchors))
  {
    var s := Barriers(anchors, anchors);
    BarriersAscend(anchors, anchors);
    forall i, j | 0 <= i < j < |s| ensures Before(s[i], s[j]) {
      assert s[i] in s && s[j] in s;
      assert Compares(s[i], s[j]) && Compares(s[j], s[i]);
    }
  }

  method FindAnchors(l: Tree, r: Tree, m: Mapping, bc: seq<nat>, ac: seq<nat>) returns (anchors: seq<Cell>)
    requires Consistent(l, r, m) && Within(l, bc) && Within(r, ac) && Distinct(bc) && Distinct(ac)
    ensures forall x :: x in anchors <==> IsAnchor(m, bc, ac, x)
    ensures Ascending(anchors)
    ensures forall i, j :: 0 <= i < j < |anchors| ==> anchors[i].1 != anchors[j].1
  {
    var positions := PositionIndex(ac);
    anchors := [];
    for i := 0 to |bc|
      invariant forall x :: x in anchors <==> x.0 < i && IsAnchor(m, bc, ac, x)
      invariant Ascending(anchors)
    {
      var b := bc[i];
      if m.beforeToAfter[b].Some? && m.beforeToAfter[b].value in positions && IsExact(m.facts[b]) {
        anchors := anchors + [(i, positions[m.beforeToAfter[b].value])];
      }
    }
    forall i, j | 0 <= i < j < |anchors| ensures anchors[i].1 != anchors[j].1 {
      assert anchors[i] in anchors && anchors[j] in anchors;
      assert IsAnchor(m, bc, ac, anchors[i]) && IsAnchor(m, bc, ac, anchors[j]);
    }
  }

  method PositionIndex(ids: seq<nat>) returns (positions: map<nat, nat>)
    requires Distinct(ids)
    ensures forall id :: id in positions <==> id in ids
    ensures forall id :: id in positions ==> positions[id] < |ids| && ids[positions[id]] == id
  {
    positions := map[];
    for j := 0 to |ids|
      invariant forall id :: id in positions <==> id in ids[..j]
      invariant forall id :: id in positions ==> positions[id] < j && ids[positions[id]] == id
    {
      positions := positions[ids[j] := j];
    }
    assert ids[..|ids|] == ids;
  }

  // ----- regions

  function Lo(barriers: seq<Cell>, k: nat): Cell
    requires k <= |barriers|
  {
    if k == 0 then (0, 0) else (barriers[k - 1].0 + 1, barriers[k - 1].1 + 1)
  }

  function Hi(barriers: seq<Cell>, bc: seq<nat>, ac: seq<nat>, k: nat): Cell
    requires k <= |barriers|
  {
    if k < |barriers| then barriers[k] else (|bc|, |ac|)
  }

  ghost predicate Fences(bc: seq<nat>, ac: seq<nat>, barriers: seq<Cell>) {
    Ladder(barriers) && forall x :: x in barriers ==> x.0 < |bc| && x.1 < |ac|
  }

  /** Consecutive barriers leave room for a region on both sides. */
  lemma FencesInOrder(bc: seq<nat>, ac: seq<nat>, barriers: seq<Cell>, k: nat)
    requires Fences(bc, ac, barriers) && k <= |barriers|
    ensures Lo(barriers, k).0 <= Hi(barriers, bc, ac, k).0 <= |bc|
    ensures Lo(barriers, k).1 <= Hi(barriers, bc, ac, k).1 <= |ac|
  {
    if k < |barriers| {
      assert barriers[k] in barriers;
    }
    if k > 0 {
      assert barriers[k - 1] in barriers;
      if k < |barriers| {
        assert Before(barriers[k - 1], barriers[k]);
      }
    }
  }

  /** The k-th region: the unmapped children strictly between two neighbouring barriers. */
  function RegionAt(m: Mapping, bc: seq<nat>, ac: seq<nat>, lo: Cell, hi: Cell): Region
    requires lo.0 <= hi.0 <= |bc| && lo.1 <= hi.1 <= |ac|
  {
    Region(UnmappedBefore(m, bc[lo.0..hi.0]), UnmappedAfter(m, ac[lo.1..hi.1]))
  }

  ghost predicate IsRegion(m: Mapping, bc: seq<nat>, ac: seq<nat>, barriers: seq<Cell>, k: nat, region: Region) {
    && k <= |barriers|
    && var lo, hi := Lo(barriers, k), Hi(barriers, bc, ac, k);
       lo.0 <= hi.0 <= |bc| && lo.1 <= hi.1 <= |ac| && region == RegionAt(m, bc, ac, lo, hi)
  }

  ghost predicate SplitAt(m: Mapping, bc: seq<nat>, ac: seq<nat>, barriers: seq<Cell>, regions: seq<Region>) {
    && Fences(bc, ac, barriers) && |regions| == |barriers| + 1
    && forall k :: 0 <= k < |regions| ==> IsRegion(m, bc, ac, barriers, k, regions[k])
  }

  // ----- barriers and regions by the places of the children

  /** Row x.0 is mapped to column x.1, and the model forces the two as identical. */
  ghost predicate ExactPlace(m: Mapping, bc: seq<nat>, ac: seq<nat>, x: Cell) {
    && x.0 < |bc| && x.1 < |ac|
    && bc[x.0] < |m.beforeToAfter| && m.beforeToAfter[bc[x.0]] == Some(ac[x.1])
    && bc[x.0] < |m.facts|
    && m.facts[bc[x.0]] in {Some(Fact(ByteEqual, ModelForced)), Some(Fact(SyntaxEqualPair, ModelForced))}
  }

  ghost predicate Crosses(x: Cell, y: Cell) {
    (x.0 < y.0 && x.1 > y.1) || (x.0 > y.0 && x.1 < y.1)
  }

  /** The barriers are the exact places that cross no other, by increasing rows and columns. */
  ghost predicate BarriersAre(m: Mapping, bc: seq<nat>, ac: seq<nat>, barriers: seq<Cell>) {
    && (forall x :: x in barriers <==>
                      ExactPlace(m, bc, ac, x) && forall y :: ExactPlace(m, bc, ac, y) ==> !Crosses(x, y))
    && (forall i, j :: 0 <= i < j < |barriers| ==>
                         barriers[i].0 < barriers[j].0 && barriers[i].1 < barriers[j].1)
  }

  /** The ids at the places from lo up to hi that have no counterpart, in their order. */
  ghost predicate FreeFrom(ids: seq<nat>, counterparts: seq<Option<nat>>, lo: nat, hi: nat, free: seq<nat>,
                           places: seq<nat>)
  {
    && lo <= hi <= |ids| && |places| == |free|
    && (forall k :: 0 <= k < |places| ==> lo <= places[k] < hi && free[k] == ids[places[k]])
    && (forall j, k :: 0 <= j < k < |places| ==> places[j] < places[k])
    && (forall p :: lo <= p < hi ==> (p in places <==> !(ids[p] < |counterparts| && counterparts[ids[p]].Some?)))
  }

  ghost predicate FreeBetween(ids: seq<nat>, counterparts: seq<Option<nat>>, lo: nat, hi: nat, free: seq<nat>) {
    exists places :: FreeFrom(ids, counterparts, lo, hi, free, places)
  }

  /** One region before each barrier and one after the last, each with the free children strictly between its
      barriers. */
  ghost predicate RegionsAre(m: Mapping, bc: seq<nat>, ac: seq<nat>, barriers: seq<Cell>, regions: seq<Region>) {
    && |regions| == |barriers| + 1
    && forall k :: 0 <= k < |regions| ==>
                     FreeBetween(bc, m.beforeToAfter, if k == 0 then 0 else barriers[k - 1].0 + 1,
                                 if k == |barriers| then |bc| else barriers[k].0, regions[k].before) &&
                     FreeBetween(ac, m.afterToBefore, if k == 0 then 0 else barriers[k - 1].1 + 1,
                                 if k == |barriers| then |ac| else barriers[k].1, regions[k].after)
  }

  lemma AnchorExactly(m: Mapping, bc: seq<nat>, ac: seq<nat>, x: Cell)
    ensures IsAnchor(m, bc, ac, x) <==> ExactPlace(m, bc, ac, x)
  {
  }

  lemma AnchorsCompare(l: Tree, r: Tree, m: Mapping, bc: seq<nat>, ac: seq<nat>, x: Cell, y: Cell)
    requires Consistent(l, r, m) && Distinct(bc) && IsAnchor(m, bc, ac, x) && IsAnchor(m, bc, ac, y)
    ensures Compares(x, y) <==> !Crosses(x, y)
  {
    hide Exact, Records, HasRelation;
    assert x.1 == y.1 ==> m.afterToBefore[ac[x.1]] == Some(bc[x.0]) && m.afterToBefore[ac[y.1]] == Some(bc[y.0]);
  }

  lemma BarriersExactly(l: Tree, r: Tree, m: Mapping, bc: seq<nat>, ac: seq<nat>, barriers: seq<Cell>)
    requires Consistent(l, r, m) && Distinct(bc) && AreBarriers(m, bc, ac, barriers) && Fences(bc, ac, barriers)
    ensures BarriersAre(m, bc, ac, barriers)
  {
    forall x, y | IsAnchor(m, bc, ac, x) && IsAnchor(m, bc, ac, y) ensures Compares(x, y) <==> !Crosses(x, y) {
      AnchorsCompare(l, r, m, bc, ac, x, y);
    }
    hide Consistent, Compares, Crosses, IsAnchor, ExactPlace;
    forall x ensures IsAnchor(m, bc, ac, x) <==> ExactPlace(m, bc, ac, x) {
      AnchorExactly(m, bc, ac, x);
    }
  }

  ghost function Unmapped(m: Mapping, onBefore: bool, ids: seq<nat>): seq<nat> {
    if onBefore then UnmappedBefore(m, ids) else UnmappedAfter(m, ids)
  }

  ghost function Counterparts(m: Mapping, onBefore: bool): seq<Option<nat>> {
    if onBefore then m.beforeToAfter else m.afterToBefore
  }

  lemma UnmappedSnoc(m: Mapping, onBefore: bool, ids: seq<nat>, id: nat)
    ensures var slots := Counterparts(m, onBefore);
            Unmapped(m, onBefore, ids + [id]) ==
            if id < |slots| && slots[id].Some? then Unmapped(m, onBefore, ids) else Unmapped(m, onBefore, ids) + [id]
  {
    assert (ids + [id])[..|ids|] == ids;
  }

  lemma FreeFromNext(ids: seq<nat>, counterparts: seq<Option<nat>>, lo: nat, n: nat, free: seq<nat>, places: seq<nat>)
    requires FreeFrom(ids, counterparts, lo, n, free, places) && n < |ids|
    ensures if ids[n] < |counterparts| && counterparts[ids[n]].Some?
            then FreeFrom(ids, counterparts, lo, n + 1, free, places)
            else FreeFrom(ids, counterparts, lo, n + 1, free + [ids[n]], places + [n])
  {
    assert forall p: nat :: p in places + [n] <==> p in places || p == n;
  }

  lemma UnmappedNext(m: Mapping, onBefore: bool, ids: seq<nat>, lo: nat, n: nat, earlier: seq<nat>)
    returns (places: seq<nat>)
    requires lo <= n < |ids|
    requires FreeFrom(ids, Counterparts(m, onBefore), lo, n, Unmapped(m, onBefore, ids[lo..n]), earlier)
    ensures FreeFrom(ids, Counterparts(m, onBefore), lo, n + 1, Unmapped(m, onBefore, ids[lo..n + 1]), places)
  {
    hide Unmapped, Counterparts, FreeFrom;
    var counterparts, id := Counterparts(m, onBefore), ids[n];
    assert ids[lo..n + 1] == ids[lo..n] + [id];
    UnmappedSnoc(m, onBefore, ids[lo..n], id);
    FreeFromNext(ids, counterparts, lo, n, Unmapped(m, onBefore, ids[lo..n]), earlier);
    places := if id < |counterparts| && counterparts[id].Some? then earlier else earlier + [n];
  }

  lemma NoneFree(m: Mapping, onBefore: bool, ids: seq<nat>, lo: nat)
    requires lo <= |ids|
    ensures FreeFrom(ids, Counterparts(m, onBefore), lo, lo, Unmapped(m, onBefore, ids[lo..lo]), [])
  {
  }

  lemma {:induction false} UnmappedIsFree(m: Mapping, onBefore: bool, ids: seq<nat>, lo: nat, hi: nat)
    returns (places: seq<nat>)
    requires lo <= hi <= |ids|
    ensures FreeFrom(ids, Counterparts(m, onBefore), lo, hi, Unmapped(m, onBefore, ids[lo..hi]), places)
    decreases hi
  {
    hide Unmapped, Counterparts, FreeFrom;
    if lo == hi {
      places := [];
      NoneFree(m, onBefore, ids, lo);
    } else {
      places := UnmappedIsFree(m, onBefore, ids, lo, hi - 1);
      places := UnmappedNext(m, onBefore, ids, lo, hi - 1, places);
    }
  }

  lemma RegionsExactly(m: Mapping, bc: seq<nat>, ac: seq<nat>, barriers: seq<Cell>, regions: seq<Region>)
    requires SplitAt(m, bc, ac, barriers, regions)
    ensures RegionsAre(m, bc, ac, barriers, regions)
  {
    hide Fences, FreeFrom, UnmappedBefore, UnmappedAfter;
    forall k | 0 <= k < |regions|
      ensures FreeBetween(bc, m.beforeToAfter, Lo(barriers, k).0, Hi(barriers, bc, ac, k).0, regions[k].before)
      ensures FreeBetween(ac, m.afterToBefore, Lo(barriers, k).1, Hi(barriers, bc, ac, k).1, regions[k].after)
    {
      assert IsRegion(m, bc, ac, barriers, k, regions[k]);
      var befores := UnmappedIsFree(m, true, bc, Lo(barriers, k).0, Hi(barriers, bc, ac, k).0);
      var afters := UnmappedIsFree(m, false, ac, Lo(barriers, k).1, Hi(barriers, bc, ac, k).1);
    }
  }

  /** The barriers are exactly the exact anchors that cross no other, and the regions lie between them. */
  method OrderedAlignmentRegions(l: Tree, r: Tree, m: Mapping, bc: seq<nat>, ac: seq<nat>)
    returns (regions: seq<Region>, barriers: seq<Cell>)
    requires Consistent(l, r, m) && Within(l, bc) && Within(r, ac) && Distinct(bc) && Distinct(ac)
    ensures AreBarriers(m, bc, ac, barriers)
    ensures SplitAt(m, bc, ac, barriers, regions)
    ensures BarriersAre(m, bc, ac, barriers) && RegionsAre(m, bc, ac, barriers, regions)
  {
    hide *;
    var anchors := FindAnchors(l, r, m, bc, ac);
    barriers := Barriers(anchors, anchors);
    BarriersExact(m, bc, ac, anchors);
    regions := CutAtBarriers(m, bc, ac, barriers);
    BarriersExactly(l, r, m, bc, ac, barriers);
    RegionsExactly(m, bc, ac, barriers, regions);
  }

  ghost predicate AreBarriers(m: Mapping, bc: seq<nat>, ac: seq<nat>, barriers: seq<Cell>) {
    forall x :: x in barriers <==> IsAnchor(m, bc, ac, x) && forall y :: IsAnchor(m, bc, ac, y) ==> Compares(x, y)
  }

  lemma BarriersExact(m: Mapping, bc: seq<nat>, ac: seq<nat>, anchors: seq<Cell>)
    requires forall x :: x in anchors <==> IsAnchor(m, bc, ac, x)
    requires Ascending(anchors) && forall i, j :: 0 <= i < j < |anchors| ==> anchors[i].1 != anchors[j].1
    ensures AreBarriers(m, bc, ac, Barriers(anchors, anchors)) && Fences(bc, ac, Barriers(anchors, anchors))
  {
    BarriersLadder(m, bc, ac, anchors);
  }

  method CutAtBarriers(m: Mapping, bc: seq<nat>, ac: seq<nat>, barriers: seq<Cell>) returns (regions: seq<Region>)
    requires Fences(bc, ac, barriers)
    ensures SplitAt(m, bc, ac, barriers, regions)
  {
    hide Fences, UnmappedBefore, UnmappedAfter;
    regions := [];
    var start: Cell := (0, 0);
    for k := 0 to |barriers|
      invariant |regions| == k && start == Lo(barriers, k)
      invariant forall j :: 0 <= j < k ==> IsRegion(m, bc, ac, barriers, j, regions[j])
    {
      FencesInOrder(bc, ac, barriers, k);
      regions := regions + [RegionAt(m, bc, ac, start, barriers[k])];
      start := (barriers[k].0 + 1, barriers[k].1 + 1);
    }
    FencesInOrder(bc, ac, barriers, |barriers|);
    regions := regions + [RegionAt(m, bc, ac, start, (|bc|, |ac|))];
  }

  // ----- consequences

  lemma LadderStep(bc: seq<nat>, ac: seq<nat>, barriers: seq<Cell>, j: nat, k: nat)
    requires Fences(bc, ac, barriers) && j < k <= |barriers|
    ensures Hi(barriers, bc, ac, j).0 < Lo(barriers, k).0 && Hi(barriers, bc, ac, j).1 < Lo(barriers, k).1
  {
    if j < k - 1 {
      assert Before(barriers[j], barriers[k - 1]);
    }
  }

  /** A child of a region stands, in its child list, between the two barriers of the region. */
  ghost predicate StandsIn(ids: seq<nat>, lo: nat, hi: nat, id: nat) {
    exists p :: lo <= p < hi && p < |ids| && ids[p] == id
  }

  lemma RegionMembers(l: Tree, r: Tree, m: Mapping, bc: seq<nat>, ac: seq<nat>, barriers: seq<Cell>, k: nat,
                      region: Region)
    requires WellFormed(l) && WellFormed(r) && Within(l, bc) && Within(r, ac) && Distinct(bc) && Distinct(ac)
    requires IsRegion(m, bc, ac, barriers, k, region)
    ensures ValidIds(l, region.before) && ValidIds(r, region.after)
    ensures forall id :: id in region.before ==>
              id in bc && !Mapped(m, id) && StandsIn(bc, Lo(barriers, k).0, Hi(barriers, bc, ac, k).0, id)
    ensures forall id :: id in region.after ==>
              id in ac && !AfterMapped(m, id) && StandsIn(ac, Lo(barriers, k).1, Hi(barriers, bc, ac, k).1, id)
  {
    hide WellFormed;
    var lo, hi := Lo(barriers, k), Hi(barriers, bc, ac, k);
    SliceDistinct(bc, lo.0, hi.0);
    SliceDistinct(ac, lo.1, hi.1);
    UnmappedDistinct(m, bc[lo.0..hi.0]);
    UnmappedDistinct(m, ac[lo.1..hi.1]);
    forall id | id in region.before ensures id in bc && StandsIn(bc, lo.0, hi.0, id) {
      SliceStands(bc, lo.0, hi.0, id);
    }
    forall id | id in region.after ensures id in ac && StandsIn(ac, lo.1, hi.1, id) {
      SliceStands(ac, lo.1, hi.1, id);
    }
    forall i | 0 <= i < |region.before| ensures region.before[i] < |l.nodes| {
      assert region.before[i] in region.before;
    }
    forall i | 0 <= i < |region.after| ensures region.after[i] < |r.nodes| {
      assert region.after[i] in region.after;
    }
  }

  lemma SliceDistinct(ids: seq<nat>, lo: nat, hi: nat)
    requires Distinct(ids) && lo <= hi <= |ids|
    ensures Distinct(ids[lo..hi])
  {
  }

  lemma SliceStands(ids: seq<nat>, lo: nat, hi: nat, id: nat)
    requires lo <= hi <= |ids| && id in ids[lo..hi]
    ensures id in ids && StandsIn(ids, lo, hi, id)
  {
    var i :| 0 <= i < hi - lo && ids[lo..hi][i] == id;
    assert ids[lo + i] == id;
  }

  /** Of two regions the earlier stands wholly before the later on both sides, so they share no child and no pairs
      taken from them cross. */
  lemma RegionsOrdered(bc: seq<nat>, ac: seq<nat>, barriers: seq<Cell>, j: nat, k: nat, p: nat, q: nat)
    requires Fences(bc, ac, barriers) && j < k <= |barriers| && Distinct(bc) && Distinct(ac)
    ensures StandsIn(bc, Lo(barriers, j).0, Hi(barriers, bc, ac, j).0, p) &&
            StandsIn(bc, Lo(barriers, k).0, Hi(barriers, bc, ac, k).0, q) ==>
              p != q && exists x, y :: 0 <= x < y < |bc| && bc[x] == p && bc[y] == q
    ensures StandsIn(ac, Lo(barriers, j).1, Hi(barriers, bc, ac, j).1, p) &&
            StandsIn(ac, Lo(barriers, k).1, Hi(barriers, bc, ac, k).1, q) ==>
              p != q && exists x, y :: 0 <= x < y < |ac| && ac[x] == p && ac[y] == q
  {
    LadderStep(bc, ac, barriers, j, k);
  }
}
