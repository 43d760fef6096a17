/** Candidate groups: the connected components of the bipartite compatibility graph of each shape class. */
module CandidateGroups {
  import opened Wrappers
  import opened Syntax
  import opened Mappings
  import opened Buckets
  import opened Serials
  import opened Claims
  import opened ShapeClasses
  import opened Connectivity
  import opened DisjointSets
  import Alignment

  datatype CandidateGroup = CandidateGroup(before: seq<nat>, after: seq<nat>, scanComplete: bool)

  datatype CandidateGroups = CandidateGroups(groups: seq<CandidateGroup>, beforeGroup: map<nat, nat>,
                                             afterGroup: map<nat, nat>)

  /** A pair the alignment may use: one shape, and no conflict with what is already mapped at or below it. */
  ghost predicate Compatible(l: Tree, r: Tree, m: Mapping, b: nat, a: nat) {
    && WellFormed(l) && WellFormed(r) && Sized(l, r, m) && b < |l.nodes| && a < |r.nodes|
    && SameShape(l, r, b, a) && CanMapShapePair(l, r, m, b, a)
  }

  /** The compatible pairs, by the fields of their nodes and of the nodes below them. */
  lemma CompatibleExactly(l: Tree, r: Tree, m: Mapping, b: nat, a: nat)
    requires WellFormed(l) && WellFormed(r) && Sized(l, r, m)
    ensures Compatible(l, r, m, b, a) <==> Proposed(l, r, m, b, a)
  {
    hide WellFormed, SameShape, CanMapShapePair, FitsBelow;
    if b < |l.nodes| && a < |r.nodes| {
      SameShapeExactly(l, r, b, a);
      CanMapExactly(l, r, m, b, a, false);
    }
  }

  // ----- the compatibility graph of a region; before and after ids are even and odd vertices

  function BeforeVertex(b: nat): nat {
    2 * b
  }

  function AfterVertex(a: nat): nat {
    2 * a + 1
  }

  ghost function RegionEdges(l: Tree, r: Tree, m: Mapping, befores: seq<nat>, afters: seq<nat>): set<Edge> {
    set b, a | b in befores && a in afters && Compatible(l, r, m, b, a) :: (BeforeVertex(b), AfterVertex(a))
  }

  ghost predicate VertexIn(g: CandidateGroup, x: nat) {
    if x % 2 == 0 then x / 2 in g.before else x / 2 in g.after
  }

  /** The group is one whole connected component. */
  ghost predicate IsComponent(edges: set<Edge>, g: CandidateGroup) {
    forall x: nat, y: nat :: VertexIn(g, x) ==> (VertexIn(g, y) <==> Connected(edges, x, y))
  }

  ghost predicate GroupsDisjoint(g: CandidateGroup, h: CandidateGroup) {
    forall x: nat :: VertexIn(g, x) ==> !VertexIn(h, x)
  }

  ghost predicate AllGroupsDisjoint(groups: seq<CandidateGroup>) {
    forall j, k :: 0 <= j < |groups| && 0 <= k < |groups| && j != k ==> GroupsDisjoint(groups[j], groups[k])
  }

  ghost predicate Grouped(groups: seq<CandidateGroup>, b: nat, a: nat) {
    exists k :: 0 <= k < |groups| && b in groups[k].before && a in groups[k].after
  }

  /** What is promised of one group: occupied on both sides, of one shape class, and either a whole component of
      the compatibility graph or too large to have been scanned. */
  ghost predicate GoodGroup(l: Tree, r: Tree, m: Mapping, befores: seq<nat>, afters: seq<nat>, c: ShapeClass,
                            g: CandidateGroup)
  {
    && g.before != [] && g.after != [] && Distinct(g.before) && Distinct(g.after)
    && (forall b :: b in g.before ==> b in c.before) && (forall a :: a in g.after ==> a in c.after)
    && if g.scanComplete then IsComponent(RegionEdges(l, r, m, befores, afters), g)
       else |g.before| * |g.after| > 16_384
  }

  /** The groups of one class. */
  ghost predicate ClassGrouped(l: Tree, r: Tree, m: Mapping, befores: seq<nat>, afters: seq<nat>, c: ShapeClass,
                               groups: seq<CandidateGroup>)
  {
    && (forall k :: 0 <= k < |groups| ==> GoodGroup(l, r, m, befores, afters, c, groups[k]))
    && AllGroupsDisjoint(groups)
    && (forall b, a :: b in c.before && a in c.after && Compatible(l, r, m, b, a) ==> Grouped(groups, b, a))
  }

  ghost predicate Oversized(c: ShapeClass) {
    |c.before| * |c.after| > 16_384
  }

  /** A class above the scan limit is one unscanned group; every group of any other class was scanned. */
  ghost predicate ScanDecided(c: ShapeClass, groups: seq<CandidateGroup>) {
    if Oversized(c) then groups == [CandidateGroup(c.before, c.after, false)]
    else forall g :: g in groups ==> g.scanComplete
  }

  ghost predicate UnscannedClass(classes: seq<ShapeClass>, n: nat, g: CandidateGroup) {
    exists k :: 0 <= k < n && k < |classes| && Oversized(classes[k]) &&
                g == CandidateGroup(classes[k].before, classes[k].after, false)
  }

  /** The unscanned groups are exactly the oversized ones of the first n classes, whole. */
  ghost predicate UnscannedExactly(classes: seq<ShapeClass>, n: nat, groups: seq<CandidateGroup>) {
    forall g :: g in groups && !g.scanComplete <==> UnscannedClass(classes, n, g)
  }

  lemma UnscannedExtended(classes: seq<ShapeClass>, n: nat, groups: seq<CandidateGroup>, more: seq<CandidateGroup>)
    requires UnscannedExactly(classes, n, groups) && n < |classes| && ScanDecided(classes[n], more)
    ensures UnscannedExactly(classes, n + 1, groups + more)
  {
    hide Oversized;
    forall g
      ensures g in groups + more && !g.scanComplete <==> UnscannedClass(classes, n + 1, g)
    {
      if UnscannedClass(classes, n, g) {
        assert g in groups;
      }
      if UnscannedClass(classes, n + 1, g) && !UnscannedClass(classes, n, g) {
        assert g in more;
      }
    }
  }

  // ----- the scan of one class, by position

  ghost predicate Scannable(l: Tree, r: Tree, m: Mapping, c: ShapeClass) {
    && WellFormed(l) && WellFormed(r) && Sized(l, r, m)
    && Within(l, c.before) && Within(r, c.after) && Distinct(c.before) && Distinct(c.after)
    && forall b, a :: b in c.before && a in c.after ==> SameShape(l, r, b, a)
  }

  ghost predicate Candidate(l: Tree, r: Tree, m: Mapping, c: ShapeClass, i: nat, j: nat) {
    i < |c.before| && j < |c.after| && Compatible(l, r, m, c.before[i], c.after[j])
  }

  /** The edges found after all of rows 0..i and the first j columns of row i. */
  ghost function ScannedEdges(l: Tree, r: Tree, m: Mapping, c: ShapeClass, i: nat, j: nat): set<Edge> {
    set x: nat, y: nat | x < |c.before| && y < |c.after| && (x < i || (x == i && y < j)) && Candidate(l, r, m, c, x, y)
      :: (x, |c.before| + y)
  }

  ghost predicate Touches(edges: set<Edge>, v: nat) {
    exists w: nat :: Linked(edges, v, w)
  }

  lemma TouchesMore(edges: set<Edge>, u: nat, w: nat, v: nat)
    ensures Touches(edges + {(u, w)}, v) <==> Touches(edges, v) || v == u || v == w
  {
    var more := edges + {(u, w)};
    if Touches(edges, v) {
      var x: nat :| Linked(edges, v, x);
      assert Linked(more, v, x);
    }
    assert Linked(more, u, w) && Linked(more, w, u);
    if Touches(more, v) && v != u && v != w {
      var x: nat :| Linked(more, v, x);
      assert Linked(edges, v, x);
    }
  }

  lemma ConnectedTouches(edges: set<Edge>, v: nat, w: nat)
    requires Connected(edges, v, w) && (v != w || Touches(edges, v))
    ensures Touches(edges, v) && Touches(edges, w)
  {
    if v != w {
      var p :| Joins(edges, p, v, w);
      assert Linked(edges, p[0], p[0 + 1]);
      assert Linked(edges, p[|p| - 2], p[|p| - 2 + 1]);
      assert Linked(edges, w, p[|p| - 2]);
    }
  }

  method ScanClass(l: Tree, r: Tree, m: Mapping, c: ShapeClass) returns (sets: DisjointSets, incident: seq<bool>)
    requires Scannable(l, r, m, c)
    requires |c.before| + |c.after| < USIZE_LIMIT
    ensures fresh(sets) && sets.Valid() && |sets.root| == |incident| == |c.before| + |c.after|
    ensures sets.edges == ScannedEdges(l, r, m, c, |c.before|, 0)
    ensures forall v :: 0 <= v < |incident| ==> (incident[v] <==> Touches(sets.edges, v))
  {
    hide WellFormed, SameShape, CanMapShapePair, Represents, IsForest, WellRanked;
    var n := |c.before|;
    sets := new DisjointSets(n + |c.after|);
    incident := seq(n + |c.after|, _ => false);
    assert ScannedEdges(l, r, m, c, 0, 0) == {};
    for i := 0 to n
      invariant fresh(sets) && sets.Valid() && |sets.root| == |incident| == n + |c.after|
      invariant sets.edges == ScannedEdges(l, r, m, c, i, 0)
      invariant forall v :: 0 <= v < |incident| ==> (incident[v] <==> Touches(sets.edges, v))
    {
      for j := 0 to |c.after|
        invariant fresh(sets) && sets.Valid() && |sets.root| == |incident| == n + |c.after|
        invariant sets.edges == ScannedEdges(l, r, m, c, i, j)
        invariant forall v :: 0 <= v < |incident| ==> (incident[v] <==> Touches(sets.edges, v))
      {
        ScanStep(l, r, m, c, i, j);
        if CanMapShapePair(l, r, m, c.before[i], c.after[j]) {
          ghost var edges := sets.edges;
          sets.Union(i, n + j);
          forall v | 0 <= v < |incident|
            ensures Touches(sets.edges, v) <==> Touches(edges, v) || v == i || v == n + j
          {
            TouchesMore(edges, i, n + j, v);
          }
          incident := incident[i := true][n + j := true];
        }
      }
      ScanRow(l, r, m, c, i);
    }
  }

  lemma ScanStep(l: Tree, r: Tree, m: Mapping, c: ShapeClass, i: nat, j: nat)
    requires Scannable(l, r, m, c) && i < |c.before| && j < |c.after|
    ensures c.before[i] < |l.nodes| && c.after[j] < |r.nodes|
    ensures ScannedEdges(l, r, m, c, i, j + 1) ==
            ScannedEdges(l, r, m, c, i, j) +
            (if CanMapShapePair(l, r, m, c.before[i], c.after[j]) then {(i, |c.before| + j)} else {})
  {
    hide WellFormed, SameShape, CanMapShapePair;
    assert c.before[i] in c.before && c.after[j] in c.after;
    assert Candidate(l, r, m, c, i, j) <==> CanMapShapePair(l, r, m, c.before[i], c.after[j]);
  }

  lemma ScanRow(l: Tree, r: Tree, m: Mapping, c: ShapeClass, i: nat)
    ensures ScannedEdges(l, r, m, c, i, |c.after|) == ScannedEdges(l, r, m, c, i + 1, 0)
  {
    hide Candidate;
  }

  // ----- collecting the components of one class

  ghost predicate Labelled(c: ShapeClass, root: seq<nat>, incident: seq<bool>) {
    |root| == |incident| == |c.before| + |c.after|
  }

  /** The members of ids, at vertices from the offset on, that are incident and carry the root. */
  ghost function Collect(ids: seq<nat>, offset: nat, root: seq<nat>, incident: seq<bool>, top: nat,
                         n: nat): (s: seq<nat>)
    requires n <= |ids| && offset + |ids| <= |root| == |incident|
    ensures forall id :: id in s <==> exists i :: 0 <= i < n && Picked(ids, offset, root, incident, top, i, id)
  {
    if n == 0 then []
    else
      var rest := Collect(ids, offset, root, incident, top, n - 1);
      if incident[offset + n - 1] && root[offset + n - 1] == top then
        assert Picked(ids, offset, root, incident, top, n - 1, ids[n - 1]);
        rest + [ids[n - 1]]
      else rest
  }

  ghost predicate Picked(ids: seq<nat>, offset: nat, root: seq<nat>, incident: seq<bool>, top: nat, i: nat, id: nat) {
    i < |ids| && offset + i < |root| == |incident| && ids[i] == id && incident[offset + i] && root[offset + i] == top
  }

  lemma {:induction false} CollectDistinct(ids: seq<nat>, offset: nat, root: seq<nat>, incident: seq<bool>, top: nat,
                                           n: nat)
    requires n <= |ids| && offset + |ids| <= |root| == |incident| && Distinct(ids)
    ensures Distinct(Collect(ids, offset, root, incident, top, n))
  {
    if n > 0 {
      CollectDistinct(ids, offset, root, incident, top, n - 1);
      var rest := Collect(ids, offset, root, incident, top, n - 1);
      assert ids[n - 1] !in rest;
      var s := Collect(ids, offset, root, incident, top, n);
      assert s == rest || s == rest + [ids[n - 1]];
    }
  }

  ghost predicate Collected(c: ShapeClass, root: seq<nat>, incident: seq<bool>, connected: map<nat, CandidateGroup>,
                            n: nat, k: nat)
    requires Labelled(c, root, incident) && n <= |c.before| && k <= |c.after|
  {
    forall top ::
      (top in connected <==> Collect(c.before, 0, root, incident, top, n) != [] ||
                             Collect(c.after, |c.before|, root, incident, top, k) != []) &&
      (top in connected ==>
         connected[top] == CandidateGroup(Collect(c.before, 0, root, incident, top, n),
                                          Collect(c.after, |c.before|, root, incident, top, k), true))
  }

  method CollectComponents(c: ShapeClass, sets: DisjointSets, incident: seq<bool>)
    returns (connected: map<nat, CandidateGroup>)
    requires sets.Valid() && Labelled(c, sets.root, incident)
    modifies sets`parent
    ensures sets.Valid()
    ensures Collected(c, sets.root, incident, connected, |c.before|, |c.after|)
  {
    hide Represents, IsForest, WellRanked;
    connected := map[];
    for i := 0 to |c.before|
      invariant sets.Valid()
      invariant Collected(c, sets.root, incident, connected, i, 0)
    {
      if incident[i] {
        var top := sets.Find(i);
        var group := if top in connected then connected[top] else CandidateGroup([], [], true);
        connected := connected[top := group.(before := group.before + [c.before[i]])];
      }
    }
    for j := 0 to |c.after|
      invariant sets.Valid()
      invariant Collected(c, sets.root, incident, connected, |c.before|, j)
    {
      var vertex := |c.before| + j;
      if incident[vertex] {
        var top := sets.Find(vertex);
        var group := if top in connected then connected[top] else CandidateGroup([], [], true);
        connected := connected[top := group.(after := group.after + [c.after[j]])];
      }
    }
  }

  // ----- positions and ids

  ghost function Vertex(c: ShapeClass, v: nat): nat
    requires v < |c.before| + |c.after|
  {
    if v < |c.before| then BeforeVertex(c.before[v]) else AfterVertex(c.after[v - |c.before|])
  }

  lemma VertexInjective(c: ShapeClass, v: nat, w: nat)
    requires v < |c.before| + |c.after| && w < |c.before| + |c.after| && Distinct(c.before) && Distinct(c.after)
    ensures Vertex(c, v) == Vertex(c, w) ==> v == w
  {
  }

  /** A class inside a region: it holds, with each of its members, all region ids of the same shape. */
  ghost predicate WholeClass(l: Tree, r: Tree, m: Mapping, c: ShapeClass, befores: seq<nat>, afters: seq<nat>) {
    && Scannable(l, r, m, c)
    && (forall b :: b in c.before ==> b in befores) && (forall a :: a in c.after ==> a in afters)
    && (forall b, a :: b in befores && a in afters && Compatible(l, r, m, b, a) ==> (b in c.before <==> a in c.after))
  }

  lemma ScannedIsRegion(l: Tree, r: Tree, m: Mapping, c: ShapeClass, befores: seq<nat>, afters: seq<nat>, v: nat,
                        w: nat)
    requires WholeClass(l, r, m, c, befores, afters)
    requires Linked(ScannedEdges(l, r, m, c, |c.before|, 0), v, w)
    ensures v < |c.before| + |c.after| && w < |c.before| + |c.after|
    ensures Linked(RegionEdges(l, r, m, befores, afters), Vertex(c, v), Vertex(c, w))
  {
    hide WellFormed, SameShape, CanMapShapePair;
    var edges := ScannedEdges(l, r, m, c, |c.before|, 0);
    var region := RegionEdges(l, r, m, befores, afters);
    forall x: nat, y: nat | x < |c.before| && y < |c.after| && Candidate(l, r, m, c, x, y)
      ensures (BeforeVertex(c.before[x]), AfterVertex(c.after[y])) in region
    {
      assert c.before[x] in befores && c.after[y] in afters;
    }
  }

  lemma RegionIsScanned(l: Tree, r: Tree, m: Mapping, c: ShapeClass, befores: seq<nat>, afters: seq<nat>, v: nat,
                        y: nat)
    returns (w: nat)
    requires WholeClass(l, r, m, c, befores, afters) && v < |c.before| + |c.after|
    requires Linked(RegionEdges(l, r, m, befores, afters), Vertex(c, v), y)
    ensures w < |c.before| + |c.after| && y == Vertex(c, w)
    ensures Linked(ScannedEdges(l, r, m, c, |c.before|, 0), v, w)
  {
    hide WellFormed, SameShape, CanMapShapePair;
    var edges := ScannedEdges(l, r, m, c, |c.before|, 0);
    if v < |c.before| {
      var b := c.before[v];
      var a :| a in afters && Compatible(l, r, m, b, a) && y == AfterVertex(a);
      assert b in c.before;
      var j :| 0 <= j < |c.after| && c.after[j] == a;
      w := |c.before| + j;
      assert Candidate(l, r, m, c, v, j) && (v, w) in edges;
    } else {
      var a := c.after[v - |c.before|];
      var b :| b in befores && Compatible(l, r, m, b, a) && y == BeforeVertex(b);
      assert a in c.after;
      w :| 0 <= w < |c.before| && c.before[w] == b;
      assert Candidate(l, r, m, c, w, v - |c.before|) && (w, v) in edges;
    }
  }

  lemma {:induction false} ScannedPath(l: Tree, r: Tree, m: Mapping, c: ShapeClass, befores: seq<nat>, afters: seq<nat>,
                                       p: seq<nat>)
    requires WholeClass(l, r, m, c, befores, afters)
    requires IsPath(ScannedEdges(l, r, m, c, |c.before|, 0), p) && p[0] < |c.before| + |c.after|
    ensures p[|p| - 1] < |c.before| + |c.after|
    ensures Connected(RegionEdges(l, r, m, befores, afters), Vertex(c, p[0]), Vertex(c, p[|p| - 1]))
    decreases |p|
  {
    hide WholeClass, ScannedEdges, RegionEdges;
    var region := RegionEdges(l, r, m, befores, afters);
    if |p| == 1 {
      ConnectedReflexive(region, Vertex(c, p[0]));
    } else {
      var q := p[..|p| - 1];
      var edges := ScannedEdges(l, r, m, c, |c.before|, 0);
      assert forall k :: 0 <= k < |q| - 1 ==> Linked(edges, p[k], p[k + 1]);
      ScannedPath(l, r, m, c, befores, afters, q);
      assert Linked(edges, p[|p| - 2], p[|p| - 2 + 1]);
      ScannedIsRegion(l, r, m, c, befores, afters, p[|p| - 2], p[|p| - 1]);
      EdgeConnects(region, Vertex(c, p[|p| - 2]), Vertex(c, p[|p| - 1]));
      ConnectedTransitive(region, Vertex(c, p[0]), Vertex(c, p[|p| - 2]), Vertex(c, p[|p| - 1]));
    }
  }

  lemma {:induction false} RegionPath(l: Tree, r: Tree, m: Mapping, c: ShapeClass, befores: seq<nat>, afters: seq<nat>,
                                      p: seq<nat>, v: nat) returns (w: nat)
    requires WholeClass(l, r, m, c, befores, afters) && v < |c.before| + |c.after|
    requires IsPath(RegionEdges(l, r, m, befores, afters), p) && p[0] == Vertex(c, v)
    ensures w < |c.before| + |c.after| && p[|p| - 1] == Vertex(c, w)
    ensures Connected(ScannedEdges(l, r, m, c, |c.before|, 0), v, w)
    decreases |p|
  {
    hide WholeClass, ScannedEdges, RegionEdges;
    var edges := ScannedEdges(l, r, m, c, |c.before|, 0);
    if |p| == 1 {
      w := v;
      ConnectedReflexive(edges, v);
    } else {
      var region := RegionEdges(l, r, m, befores, afters);
      var q := p[..|p| - 1];
      assert forall k :: 0 <= k < |q| - 1 ==> Linked(region, p[k], p[k + 1]);
      var u := RegionPath(l, r, m, c, befores, afters, q, v);
      assert Linked(region, p[|p| - 2], p[|p| - 2 + 1]);
      w := RegionIsScanned(l, r, m, c, befores, afters, u, p[|p| - 1]);
      EdgeConnects(edges, u, w);
      ConnectedTransitive(edges, v, u, w);
    }
  }

  /** Connectivity by position inside a class is connectivity by id in the region. */
  lemma ConnectivityAgrees(l: Tree, r: Tree, m: Mapping, c: ShapeClass, befores: seq<nat>, afters: seq<nat>, v: nat,
                           y: nat)
    requires WholeClass(l, r, m, c, befores, afters) && v < |c.before| + |c.after|
    ensures Connected(RegionEdges(l, r, m, befores, afters), Vertex(c, v), y) <==>
            exists w: nat :: w < |c.before| + |c.after| && y == Vertex(c, w) &&
                             Connected(ScannedEdges(l, r, m, c, |c.before|, 0), v, w)
  {
    hide WholeClass, ScannedEdges, RegionEdges;
    var edges := ScannedEdges(l, r, m, c, |c.before|, 0);
    var region := RegionEdges(l, r, m, befores, afters);
    if Connected(region, Vertex(c, v), y) {
      var p :| Joins(region, p, Vertex(c, v), y);
      var w := RegionPath(l, r, m, c, befores, afters, p, v);
    }
    if w: nat :| w < |c.before| + |c.after| && y == Vertex(c, w) && Connected(edges, v, w) {
      var p :| Joins(edges, p, v, w);
      ScannedPath(l, r, m, c, befores, afters, p);
    }
  }

  // ----- the groups of one class are its components

  /** The labels and incidence flags that the scan of a class leaves behind. */
  ghost predicate Labels(l: Tree, r: Tree, m: Mapping, c: ShapeClass, root: seq<nat>, incident: seq<bool>) {
    && Labelled(c, root, incident)
    && Represents(ScannedEdges(l, r, m, c, |c.before|, 0), root)
    && forall v :: 0 <= v < |incident| ==> (incident[v] <==> Touches(ScannedEdges(l, r, m, c, |c.before|, 0), v))
  }

  ghost function GroupOf(c: ShapeClass, root: seq<nat>, incident: seq<bool>, top: nat): CandidateGroup
    requires Labelled(c, root, incident)
  {
    CandidateGroup(Collect(c.before, 0, root, incident, top, |c.before|),
                   Collect(c.after, |c.before|, root, incident, top, |c.after|), true)
  }

  ghost predicate Carries(root: seq<nat>, incident: seq<bool>, top: nat, v: nat) {
    v < |root| == |incident| && incident[v] && root[v] == top
  }

  lemma GroupMembers(c: ShapeClass, root: seq<nat>, incident: seq<bool>, top: nat, x: nat)
    requires Labelled(c, root, incident)
    ensures VertexIn(GroupOf(c, root, incident, top), x) <==>
            exists v: nat :: v < |c.before| + |c.after| && x == Vertex(c, v) && Carries(root, incident, top, v)
  {
    var g := GroupOf(c, root, incident, top);
    if VertexIn(g, x) {
      if x % 2 == 0 {
        var i: nat :| i < |c.before| && Picked(c.before, 0, root, incident, top, i, x / 2);
        assert x == Vertex(c, i) && Carries(root, incident, top, i);
      } else {
        var i: nat :| i < |c.after| && Picked(c.after, |c.before|, root, incident, top, i, x / 2);
        assert x == Vertex(c, |c.before| + i) && Carries(root, incident, top, |c.before| + i);
      }
    }
    if v: nat :| v < |c.before| + |c.after| && x == Vertex(c, v) && Carries(root, incident, top, v) {
      if v < |c.before| {
        assert Picked(c.before, 0, root, incident, top, v, x / 2);
      } else {
        assert Picked(c.after, |c.before|, root, incident, top, v - |c.before|, x / 2);
      }
    }
  }

  lemma GroupIsComponent(l: Tree, r: Tree, m: Mapping, c: ShapeClass, befores: seq<nat>, afters: seq<nat>,
                         root: seq<nat>, incident: seq<bool>, top: nat)
    requires WholeClass(l, r, m, c, befores, afters) && Labels(l, r, m, c, root, incident)
    ensures IsComponent(RegionEdges(l, r, m, befores, afters), GroupOf(c, root, incident, top))
  {
    hide WholeClass, ScannedEdges, RegionEdges, GroupOf, VertexIn, Touches;
    var g := GroupOf(c, root, incident, top);
    var region := RegionEdges(l, r, m, befores, afters);
    var edges := ScannedEdges(l, r, m, c, |c.before|, 0);
    forall x: nat, y: nat | VertexIn(g, x) ensures VertexIn(g, y) <==> Connected(region, x, y) {
      GroupMembers(c, root, incident, top, x);
      GroupMembers(c, root, incident, top, y);
      var v: nat :| v < |c.before| + |c.after| && x == Vertex(c, v) && Carries(root, incident, top, v);
      ConnectivityAgrees(l, r, m, c, befores, afters, v, y);
      if w: nat :| w < |c.before| + |c.after| && y == Vertex(c, w) && Connected(edges, v, w) {
        ConnectedTouches(edges, v, w);
        assert Carries(root, incident, top, w);
      }
      if VertexIn(g, y) {
        var w: nat :| w < |c.before| + |c.after| && y == Vertex(c, w) && Carries(root, incident, top, w);
        assert Connected(edges, v, w);
      }
    }
  }

  /** A component is occupied on both sides: every incident vertex has a neighbour on the other side. */
  lemma GroupTwoSided(l: Tree, r: Tree, m: Mapping, c: ShapeClass, root: seq<nat>, incident: seq<bool>, top: nat,
                      v: nat)
    requires Labels(l, r, m, c, root, incident) && Carries(root, incident, top, v)
    ensures var g := GroupOf(c, root, incident, top); g.before != [] && g.after != []
  {
    hide ScannedEdges, Represents, GroupOf, VertexIn;
    var edges := ScannedEdges(l, r, m, c, |c.before|, 0);
    var w: nat :| Linked(edges, v, w);
    CrossesSides(l, r, m, c, v, w);
    EdgeConnects(edges, v, w);
    ConnectedTouches(edges, v, w);
    SameRoot(edges, root, v, w);
    var i, j := if v < w then v else w, if v < w then w else v;
    GroupMembers(c, root, incident, top, Vertex(c, i));
    GroupMembers(c, root, incident, top, Vertex(c, j));
    OccupiedSides(GroupOf(c, root, incident, top), c.before[i], c.after[j - |c.before|]);
  }

  lemma CrossesSides(l: Tree, r: Tree, m: Mapping, c: ShapeClass, v: nat, w: nat)
    requires Linked(ScannedEdges(l, r, m, c, |c.before|, 0), v, w)
    ensures (v < |c.before| <= w < |c.before| + |c.after|) || (w < |c.before| <= v < |c.before| + |c.after|)
  {
  }

  lemma OccupiedSides(g: CandidateGroup, b: nat, a: nat)
    requires VertexIn(g, BeforeVertex(b)) && VertexIn(g, AfterVertex(a))
    ensures g.before != [] && g.after != []
  {
  }

  lemma GroupGood(l: Tree, r: Tree, m: Mapping, c: ShapeClass, befores: seq<nat>, afters: seq<nat>,
                  root: seq<nat>, incident: seq<bool>, top: nat)
    requires WholeClass(l, r, m, c, befores, afters) && Labels(l, r, m, c, root, incident)
    requires GroupOf(c, root, incident, top).before != [] || GroupOf(c, root, incident, top).after != []
    ensures GoodGroup(l, r, m, befores, afters, c, GroupOf(c, root, incident, top))
  {
    hide ScannedEdges, Represents, RegionEdges, IsComponent, Compatible, SameShape, WellFormed, Touches;
    var g := GroupOf(c, root, incident, top);
    GroupIsComponent(l, r, m, c, befores, afters, root, incident, top);
    CollectDistinct(c.before, 0, root, incident, top, |c.before|);
    CollectDistinct(c.after, |c.before|, root, incident, top, |c.after|);
    var x := if g.before != [] then BeforeVertex(g.before[0]) else AfterVertex(g.after[0]);
    assert VertexIn(g, x);
    GroupMembers(c, root, incident, top, x);
    var v: nat :| v < |c.before| + |c.after| && x == Vertex(c, v) && Carries(root, incident, top, v);
    GroupTwoSided(l, r, m, c, root, incident, top, v);
  }

  lemma GroupsApart(c: ShapeClass, root: seq<nat>, incident: seq<bool>, s: nat, t: nat)
    requires Labelled(c, root, incident) && Distinct(c.before) && Distinct(c.after) && s != t
    ensures GroupsDisjoint(GroupOf(c, root, incident, s), GroupOf(c, root, incident, t))
  {
    hide GroupOf, VertexIn;
    forall x: nat | VertexIn(GroupOf(c, root, incident, s), x) ensures !VertexIn(GroupOf(c, root, incident, t), x) {
      GroupMembers(c, root, incident, s, x);
      GroupMembers(c, root, incident, t, x);
      var v: nat :| v < |c.before| + |c.after| && x == Vertex(c, v) && Carries(root, incident, s, v);
      forall w: nat | w < |c.before| + |c.after| && x == Vertex(c, w) ensures w == v {
        VertexInjective(c, v, w);
      }
    }
  }

  /** A compatible pair ends up in the group of its common root. */
  lemma PairGrouped(l: Tree, r: Tree, m: Mapping, c: ShapeClass, root: seq<nat>, incident: seq<bool>, b: nat, a: nat)
    returns (top: nat)
    requires Labels(l, r, m, c, root, incident)
    requires b in c.before && a in c.after && Compatible(l, r, m, b, a)
    ensures var g := GroupOf(c, root, incident, top); b in g.before && a in g.after
  {
    hide Compatible, Represents;
    var edges := ScannedEdges(l, r, m, c, |c.before|, 0);
    var i: nat :| i < |c.before| && c.before[i] == b;
    var j: nat :| j < |c.after| && c.after[j] == a;
    var w := |c.before| + j;
    assert Candidate(l, r, m, c, i, j) && (i, w) in edges;
    assert Linked(edges, i, w) && Linked(edges, w, i);
    EdgeConnects(edges, i, w);
    top := root[i];
    SameRoot(edges, root, i, w);
    assert Picked(c.before, 0, root, incident, top, i, b) && Picked(c.after, |c.before|, root, incident, top, j, a);
  }

  lemma SameRoot(edges: set<Edge>, root: seq<nat>, x: nat, y: nat)
    requires Represents(edges, root) && x < |root| && y < |root| && Connected(edges, x, y)
    ensures root[x] == root[y]
  {
  }

  /** One class: scanned completely when small enough, kept whole and marked incomplete otherwise. */
  method ClassGroups(l: Tree, r: Tree, m: Mapping, c: ShapeClass, ghost befores: seq<nat>, ghost afters: seq<nat>)
    returns (groups: seq<CandidateGroup>)
    requires WholeClass(l, r, m, c, befores, afters) && c.before != [] && c.after != []
    ensures ClassGrouped(l, r, m, befores, afters, c, groups) && ScanDecided(c, groups)
  {
    hide WholeClass, GroupOf, Collected, Represents, IsForest, WellRanked, Labels, Compatible, GoodGroup;
    hide GroupsDisjoint;
    if |c.before| * |c.after| > Alignment.ORDERED_ALIGNMENT_CANDIDATE_SCAN_LIMIT {
      groups := [CandidateGroup(c.before, c.after, false)];
      WholeClassGood(l, r, m, befores, afters, c);
      return;
    }
    ClassScannable(l, r, m, c, befores, afters);
    SmallClass(|c.before|, |c.after|);
    var sets, incident := ScanClass(l, r, m, c);
    var connected := CollectComponents(c, sets, incident);
    ghost var root := sets.root;
    SetsLabel(l, r, m, c, sets, incident);
    CollectedScanned(c, root, incident, connected);
    groups := [];
    ghost var tops: seq<nat> := [];
    var keys := connected.Keys;
    while keys != {}
      invariant keys <= connected.Keys && |tops| == |groups|
      invariant forall top :: top in connected <==> top in keys || top in tops
      invariant forall k :: 0 <= k < |tops| ==> tops[k] !in keys
      invariant Distinct(tops)
      invariant forall k :: 0 <= k < |tops| ==> tops[k] in connected && groups[k] == connected[tops[k]]
      invariant forall g :: g in groups ==> g.scanComplete
      decreases |keys|
    {
      var key :| key in keys;
      keys := keys - {key};
      groups := groups + [connected[key]];
      tops := tops + [key];
    }
    ComponentsGrouped(l, r, m, befores, afters, c, root, incident, connected, tops, groups);
  }

  lemma CollectedScanned(c: ShapeClass, root: seq<nat>, incident: seq<bool>, connected: map<nat, CandidateGroup>)
    requires Labelled(c, root, incident) && Collected(c, root, incident, connected, |c.before|, |c.after|)
    ensures forall top :: top in connected ==> connected[top].scanComplete
  {
  }

  lemma ComponentsGrouped(l: Tree, r: Tree, m: Mapping, befores: seq<nat>, afters: seq<nat>, c: ShapeClass,
                          root: seq<nat>, incident: seq<bool>, connected: map<nat, CandidateGroup>,
                          tops: seq<nat>, groups: seq<CandidateGroup>)
    requires WholeClass(l, r, m, c, befores, afters) && Labels(l, r, m, c, root, incident)
    requires Collected(c, root, incident, connected, |c.before|, |c.after|)
    requires |tops| == |groups| && Distinct(tops) && forall top :: top in connected <==> top in tops
    requires forall k :: 0 <= k < |tops| ==> tops[k] in connected && groups[k] == connected[tops[k]]
    ensures ClassGrouped(l, r, m, befores, afters, c, groups)
  {
    hide WholeClass, Compatible, GoodGroup, GroupsDisjoint;
    ClassScannable(l, r, m, c, befores, afters);
    forall k | 0 <= k < |groups| ensures GoodGroup(l, r, m, befores, afters, c, groups[k]) {
      GroupGood(l, r, m, c, befores, afters, root, incident, tops[k]);
    }
    forall j, k | 0 <= j < |groups| && 0 <= k < |groups| && j != k ensures GroupsDisjoint(groups[j], groups[k]) {
      GroupsApart(c, root, incident, tops[j], tops[k]);
    }
    forall b, a | b in c.before && a in c.after && Compatible(l, r, m, b, a) ensures Grouped(groups, b, a) {
      var top := PairGrouped(l, r, m, c, root, incident, b, a);
      assert top in connected;
      var k :| 0 <= k < |tops| && tops[k] == top;
    }
  }

  lemma SetsLabel(l: Tree, r: Tree, m: Mapping, c: ShapeClass, sets: DisjointSets, incident: seq<bool>)
    requires sets.Valid() && |sets.root| == |incident| == |c.before| + |c.after|
    requires sets.edges == ScannedEdges(l, r, m, c, |c.before|, 0)
    requires forall v :: 0 <= v < |incident| ==> (incident[v] <==> Touches(sets.edges, v))
    ensures Labels(l, r, m, c, sets.root, incident)
  {
  }

  lemma ClassScannable(l: Tree, r: Tree, m: Mapping, c: ShapeClass, befores: seq<nat>, afters: seq<nat>)
    requires WholeClass(l, r, m, c, befores, afters)
    ensures Scannable(l, r, m, c)
  {
  }

  lemma SmallClass(before: nat, after: nat)
    requires before > 0 && after > 0 && before * after <= Alignment.ORDERED_ALIGNMENT_CANDIDATE_SCAN_LIMIT
    ensures before + after < USIZE_LIMIT
  {
    assert before <= before * after by {
      assert before * (after - 1) >= 0;
    }
    assert after <= before * after by {
      assert (before - 1) * after >= 0;
    }
  }

  lemma WholeClassGood(l: Tree, r: Tree, m: Mapping, befores: seq<nat>, afters: seq<nat>, c: ShapeClass)
    requires WholeClass(l, r, m, c, befores, afters) && c.before != [] && c.after != []
    requires |c.before| * |c.after| > Alignment.ORDERED_ALIGNMENT_CANDIDATE_SCAN_LIMIT
    ensures ClassGrouped(l, r, m, befores, afters, c, [CandidateGroup(c.before, c.after, false)])
  {
    var groups := [CandidateGroup(c.before, c.after, false)];
    assert c.before == groups[0].before && c.after == groups[0].after;
  }

  // ----- all classes of a region

  lemma ClassIsWhole(l: Tree, r: Tree, m: Mapping, classes: seq<ShapeClass>, k: nat, befores: seq<nat>,
                     afters: seq<nat>)
    requires AllClasses(l, r, classes, befores, afters) && Sized(l, r, m) && k < |classes|
    ensures WholeClass(l, r, m, classes[k], befores, afters) && classes[k].before != [] && classes[k].after != []
  {
    hide WellFormed, SameShape, CanMapShapePair;
    var c := classes[k];
    assert Verified(l, r, c, befores, afters);
    assert Within(l, c.before) by {
      forall i | 0 <= i < |c.before| ensures c.before[i] < |l.nodes| {
        assert c.before[i] in befores;
      }
    }
    assert Within(r, c.after) by {
      forall i | 0 <= i < |c.after| ensures c.after[i] < |r.nodes| {
        assert c.after[i] in afters;
      }
    }
    forall b, a | b in befores && a in afters && Compatible(l, r, m, b, a) ensures b in c.before <==> a in c.after {
      assert Together(classes, b, a);
      var j :| 0 <= j < |classes| && b in classes[j].before && a in classes[j].after;
      assert j != k ==> Disjoint(classes[j], c);
    }
  }

  /** The groups of the first n classes, each owned by the class it came from. */
  ghost predicate GroupsUpTo(l: Tree, r: Tree, m: Mapping, classes: seq<ShapeClass>, befores: seq<nat>,
                             afters: seq<nat>,
                             n: nat, groups: seq<CandidateGroup>, owners: seq<nat>)
  {
    && n <= |classes| && |owners| == |groups|
    && (forall k :: 0 <= k < |groups| ==>
                      owners[k] < n && GoodGroup(l, r, m, befores, afters, classes[owners[k]], groups[k]))
    && AllGroupsDisjoint(groups)
    && (forall j, b, a :: 0 <= j < n && b in classes[j].before && a in classes[j].after && Compatible(l, r, m, b, a) ==>
                            Grouped(groups, b, a))
  }

  lemma AppendGroups(l: Tree, r: Tree, m: Mapping, classes: seq<ShapeClass>, befores: seq<nat>, afters: seq<nat>,
                     n: nat, groups: seq<CandidateGroup>, owners: seq<nat>, more: seq<CandidateGroup>)
    requires GroupsUpTo(l, r, m, classes, befores, afters, n, groups, owners) && n < |classes|
    requires AllClasses(l, r, classes, befores, afters)
    requires ClassGrouped(l, r, m, befores, afters, classes[n], more)
    ensures GroupsUpTo(l, r, m, classes, befores, afters, n + 1, groups + more, owners + seq(|more|, _ => n))
  {
    hide Compatible, WellFormed, IsComponent, Verified, SameShape, VertexIn;
    var out := groups + more;
    var newOwners := owners + seq(|more|, _ => n);
    forall k | 0 <= k < |out|
      ensures newOwners[k] < n + 1 && GoodGroup(l, r, m, befores, afters, classes[newOwners[k]], out[k])
    {
      if k >= |groups| {
        assert GoodGroup(l, r, m, befores, afters, classes[n], more[k - |groups|]);
      }
    }
    forall j, k | 0 <= j < |out| && 0 <= k < |out| && j != k ensures GroupsDisjoint(out[j], out[k]) {
      if j < |groups| && k < |groups| {
        assert GroupsDisjoint(groups[j], groups[k]);
      } else if j >= |groups| && k >= |groups| {
        assert GroupsDisjoint(more[j - |groups|], more[k - |groups|]);
      } else {
        assert Disjoint(classes[newOwners[j]], classes[newOwners[k]]);
        OtherClassApart(l, r, m, befores, afters, classes[newOwners[j]], classes[newOwners[k]], out[j], out[k]);
      }
    }
    hide GoodGroup, AllGroupsDisjoint, AllClasses, Grouped;
    forall j, b, a | 0 <= j < n + 1 && b in classes[j].before && a in classes[j].after && Compatible(l, r, m, b, a)
      ensures Grouped(out, b, a)
    {
      assert j < n ==> Grouped(groups, b, a);
      assert j == n ==> Grouped(more, b, a);
      StillGrouped(groups, more, b, a);
    }
  }

  lemma StillGrouped(groups: seq<CandidateGroup>, more: seq<CandidateGroup>, b: nat, a: nat)
    requires Grouped(groups, b, a) || Grouped(more, b, a)
    ensures Grouped(groups + more, b, a)
  {
    var out := groups + more;
    if Grouped(groups, b, a) {
      var k :| 0 <= k < |groups| && b in groups[k].before && a in groups[k].after;
      assert out[k] == groups[k];
    } else {
      var k :| 0 <= k < |more| && b in more[k].before && a in more[k].after;
      assert out[|groups| + k] == more[k];
    }
  }

  lemma OtherClassApart(l: Tree, r: Tree, m: Mapping, befores: seq<nat>, afters: seq<nat>, c: ShapeClass, d: ShapeClass,
                        g: CandidateGroup, h: CandidateGroup)
    requires Disjoint(c, d) && GoodGroup(l, r, m, befores, afters, c, g) && GoodGroup(l, r, m, befores, afters, d, h)
    ensures GroupsDisjoint(g, h)
  {
    hide IsComponent;
  }

  // ----- the result

  ghost predicate RegionGroup(l: Tree, r: Tree, m: Mapping, befores: seq<nat>, afters: seq<nat>, g: CandidateGroup)
    requires WellFormed(l) && WellFormed(r) && Within(l, befores) && Within(r, afters)
  {
    && g.before != [] && g.after != [] && Distinct(g.before) && Distinct(g.after)
    && (forall b :: b in g.before ==> b in befores) && (forall a :: a in g.after ==> a in afters)
    && (forall b, a :: b in g.before && a in g.after ==> SameShape(l, r, b, a))
    && if g.scanComplete then IsComponent(RegionEdges(l, r, m, befores, afters), g)
       else |g.before| * |g.after| > 16_384
  }

  function Side(g: CandidateGroup, before: bool): seq<nat> {
    if before then g.before else g.after
  }

  /** The index holds exactly the members of the first n groups, each with the number of its group. */
  ghost predicate IndexesSide(groups: seq<CandidateGroup>, before: bool, n: nat, index: map<nat, nat>) {
    && n <= |groups|
    && (forall k, x :: 0 <= k < n && x in Side(groups[k], before) ==> x in index && index[x] == k)
    && (forall x :: x in index ==> index[x] < n && x in Side(groups[index[x]], before))
  }

  ghost predicate Indexed(cg: CandidateGroups) {
    && IndexesSide(cg.groups, true, |cg.groups|, cg.beforeGroup)
    && IndexesSide(cg.groups, false, |cg.groups|, cg.afterGroup)
  }

  /** Disjoint groups, two-sided and of one shape, each a whole component of the compatibility graph unless marked as
      not scanned, that together hold every compatible pair; and the index that finds the group of an id. */
  ghost predicate ValidGroups(l: Tree, r: Tree, m: Mapping, befores: seq<nat>, afters: seq<nat>, cg: CandidateGroups) {
    && WellFormed(l) && WellFormed(r) && Within(l, befores) && Within(r, afters)
    && (forall k :: 0 <= k < |cg.groups| ==> RegionGroup(l, r, m, befores, afters, cg.groups[k]))
    && AllGroupsDisjoint(cg.groups)
    && Indexed(cg)
    && (forall b, a :: b in befores && a in afters && Compatible(l, r, m, b, a) ==> Grouped(cg.groups, b, a))
  }

  lemma AllGrouped(l: Tree, r: Tree, m: Mapping, classes: seq<ShapeClass>, befores: seq<nat>, afters: seq<nat>,
                   groups: seq<CandidateGroup>, owners: seq<nat>, cg: CandidateGroups)
    requires AllClasses(l, r, classes, befores, afters)
    requires GroupsUpTo(l, r, m, classes, befores, afters, |classes|, groups, owners)
    requires cg.groups == groups && Indexed(cg)
    ensures ValidGroups(l, r, m, befores, afters, cg)
  {
    hide WellFormed, IsComponent, SameShape, Indexed, AllGroupsDisjoint;
    forall k | 0 <= k < |groups| ensures RegionGroup(l, r, m, befores, afters, groups[k]) {
      assert GoodGroup(l, r, m, befores, afters, classes[owners[k]], groups[k]);
      assert Verified(l, r, classes[owners[k]], befores, afters);
    }
    forall b, a | b in befores && a in afters && Compatible(l, r, m, b, a) ensures Grouped(groups, b, a) {
      assert Together(classes, b, a);
    }
  }

  /** Number the groups and index their members. */
  method IndexGroups(groups: seq<CandidateGroup>) returns (cg: CandidateGroups)
    requires AllGroupsDisjoint(groups)
    ensures cg.groups == groups && Indexed(cg)
  {
    hide VertexIn, AllGroupsDisjoint, Side, IndexesSide;
    var beforeGroup: map<nat, nat>, afterGroup: map<nat, nat> := map[], map[];
    EmptyIndex(groups, true);
    EmptyIndex(groups, false);
    for k := 0 to |groups|
      invariant IndexesSide(groups, true, k, beforeGroup)
      invariant IndexesSide(groups, false, k, afterGroup)
    {
      IndexStep(groups, true, k, beforeGroup);
      IndexStep(groups, false, k, afterGroup);
      beforeGroup := beforeGroup + NumberAll(Side(groups[k], true), k);
      afterGroup := afterGroup + NumberAll(Side(groups[k], false), k);
    }
    cg := CandidateGroups(groups, beforeGroup, afterGroup);
  }

  function NumberAll(ids: seq<nat>, k: nat): map<nat, nat> {
    map x | x in ids :: k
  }

  lemma EmptyIndex(groups: seq<CandidateGroup>, before: bool)
    ensures IndexesSide(groups, before, 0, map[])
  {
  }

  lemma IndexStep(groups: seq<CandidateGroup>, before: bool, n: nat, index: map<nat, nat>)
    requires AllGroupsDisjoint(groups) && n < |groups| && IndexesSide(groups, before, n, index)
    ensures IndexesSide(groups, before, n + 1, index + NumberAll(Side(groups[n], before), n))
  {
    hide AllGroupsDisjoint;
    forall k, x | 0 <= k < n && x in Side(groups[k], before) ensures x !in Side(groups[n], before) {
      MembersApart(groups, before, k, n, x);
    }
  }

  lemma MembersApart(groups: seq<CandidateGroup>, before: bool, j: nat, k: nat, x: nat)
    requires AllGroupsDisjoint(groups) && j < |groups| && k < |groups| && j != k && x in Side(groups[j], before)
    ensures x !in Side(groups[k], before)
  {
    assert GroupsDisjoint(groups[j], groups[k]);
    assert VertexIn(groups[j], if before then BeforeVertex(x) else AfterVertex(x));
  }

  // ----- the groups, by the fields of the nodes

  ghost function ProposedEdges(l: Tree, r: Tree, m: Mapping, befores: seq<nat>, afters: seq<nat>): set<Edge>
    requires WellFormed(l) && WellFormed(r) && Sized(l, r, m)
  {
    set b, a | b in befores && a in afters && Proposed(l, r, m, b, a) :: (2 * b, 2 * a + 1)
  }

  /** The group holds all before ids and all after ids that a chain of proposed pairs links to a member, and no
      others. */
  ghost predicate WholeChain(edges: set<Edge>, g: CandidateGroup) {
    && (forall b: nat, c: nat :: b in g.before ==> (c in g.before <==> Connected(edges, 2 * b, 2 * c)))
    && (forall b: nat, a: nat :: b in g.before ==> (a in g.after <==> Connected(edges, 2 * b, 2 * a + 1)))
  }

  /** Proposed pairs share a group, members of one group have one shape, and a group is a whole chain of proposed pairs
      unless it has more than 16,384 pairs. */
  ghost predicate GroupsProposed(l: Tree, r: Tree, m: Mapping, befores: seq<nat>, afters: seq<nat>,
                                 groups: seq<CandidateGroup>)
    requires WellFormed(l) && WellFormed(r) && Sized(l, r, m)
  {
    && (forall b, a :: b in befores && a in afters && Proposed(l, r, m, b, a) ==>
                         exists k :: 0 <= k < |groups| && b in groups[k].before && a in groups[k].after)
    && (forall k, b, a :: 0 <= k < |groups| && b in groups[k].before && a in groups[k].after ==>
                            b in befores && a in afters && OneShape(l, r, b, a))
    && (forall k :: 0 <= k < |groups| && groups[k].scanComplete ==>
                      WholeChain(ProposedEdges(l, r, m, befores, afters), groups[k]))
    && (forall k :: 0 <= k < |groups| && !groups[k].scanComplete ==>
                      |groups[k].before| * |groups[k].after| > 16_384)
  }

  lemma EdgesExactly(l: Tree, r: Tree, m: Mapping, befores: seq<nat>, afters: seq<nat>)
    requires WellFormed(l) && WellFormed(r) && Sized(l, r, m)
    ensures RegionEdges(l, r, m, befores, afters) == ProposedEdges(l, r, m, befores, afters)
  {
    hide Compatible, Proposed, WellFormed;
    forall b: nat, a: nat ensures Compatible(l, r, m, b, a) <==> Proposed(l, r, m, b, a) {
      CompatibleExactly(l, r, m, b, a);
    }
  }

  lemma OwnVertices(g: CandidateGroup, id: nat)
    ensures VertexIn(g, 2 * id) <==> id in g.before
    ensures VertexIn(g, 2 * id + 1) <==> id in g.after
  {
  }

  lemma ComponentIsChain(edges: set<Edge>, g: CandidateGroup)
    requires IsComponent(edges, g)
    ensures WholeChain(edges, g)
  {
    hide Connected, VertexIn;
    forall b: nat, c: nat | b in g.before
      ensures c in g.before <==> Connected(edges, 2 * b, 2 * c)
      ensures c in g.after <==> Connected(edges, 2 * b, 2 * c + 1)
    {
      OwnVertices(g, b);
      OwnVertices(g, c);
    }
  }

  lemma ValidIsProposed(l: Tree, r: Tree, m: Mapping, befores: seq<nat>, afters: seq<nat>, cg: CandidateGroups)
    requires ValidGroups(l, r, m, befores, afters, cg) && Sized(l, r, m)
    ensures GroupsProposed(l, r, m, befores, afters, cg.groups)
  {
    hide WellFormed, Compatible, Proposed, OneShape, SameShape, IsComponent, WholeChain, AllGroupsDisjoint, Indexed;
    hide RegionEdges, ProposedEdges;
    EdgesExactly(l, r, m, befores, afters);
    forall b, a | b in befores && a in afters && Proposed(l, r, m, b, a)
      ensures exists k :: 0 <= k < |cg.groups| && b in cg.groups[k].before && a in cg.groups[k].after
    {
      CompatibleExactly(l, r, m, b, a);
      assert Grouped(cg.groups, b, a);
    }
    forall k | 0 <= k < |cg.groups|
      ensures forall b, a :: b in cg.groups[k].before && a in cg.groups[k].after ==>
                b in befores && a in afters && OneShape(l, r, b, a)
      ensures cg.groups[k].scanComplete ==> WholeChain(ProposedEdges(l, r, m, befores, afters), cg.groups[k])
      ensures !cg.groups[k].scanComplete ==> |cg.groups[k].before| * |cg.groups[k].after| > 16_384
    {
      assert RegionGroup(l, r, m, befores, afters, cg.groups[k]);
      forall b, a | b in cg.groups[k].before && a in cg.groups[k].after ensures OneShape(l, r, b, a) {
        SameShapeExactly(l, r, b, a);
      }
      if cg.groups[k].scanComplete {
        ComponentIsChain(RegionEdges(l, r, m, befores, afters), cg.groups[k]);
      }
    }
  }

  method VerifiedCandidateGroups(l: Tree, r: Tree, m: Mapping, classes: seq<ShapeClass>, ghost befores: seq<nat>,
                                 ghost afters: seq<nat>) returns (cg: CandidateGroups)
    requires AllClasses(l, r, classes, befores, afters) && Sized(l, r, m)
    ensures ValidGroups(l, r, m, befores, afters, cg)
    ensures UnscannedExactly(classes, |classes|, cg.groups)
    ensures GroupsProposed(l, r, m, befores, afters, cg.groups)
  {
    hide AllClasses, GroupsUpTo, WholeClass, ClassGrouped, AllGroupsDisjoint, ValidGroups;
    hide ScanDecided, UnscannedExactly, GroupsProposed;
    var groups: seq<CandidateGroup> := [];
    ghost var owners: seq<nat> := [];
    NoGroupsYet(l, r, m, classes, befores, afters);
    for n := 0 to |classes|
      invariant GroupsUpTo(l, r, m, classes, befores, afters, n, groups, owners)
      invariant UnscannedExactly(classes, n, groups)
    {
      ClassIsWhole(l, r, m, classes, n, befores, afters);
      var more := ClassGroups(l, r, m, classes[n], befores, afters);
      AppendGroups(l, r, m, classes, befores, afters, n, groups, owners, more);
      UnscannedExtended(classes, n, groups, more);
      groups := groups + more;
      owners := owners + seq(|more|, _ => n);
    }
    GroupsUpToDisjoint(l, r, m, classes, befores, afters, |classes|, groups, owners);
    cg := IndexGroups(groups);
    AllGrouped(l, r, m, classes, befores, afters, groups, owners, cg);
    ValidIsProposed(l, r, m, befores, afters, cg);
  }

  lemma NoGroupsYet(l: Tree, r: Tree, m: Mapping, classes: seq<ShapeClass>, befores: seq<nat>, afters: seq<nat>)
    ensures GroupsUpTo(l, r, m, classes, befores, afters, 0, [], []) && UnscannedExactly(classes, 0, [])
  {
  }

  lemma GroupsUpToDisjoint(l: Tree, r: Tree, m: Mapping, classes: seq<ShapeClass>, befores: seq<nat>, afters: seq<nat>,
                           n: nat, groups: seq<CandidateGroup>, owners: seq<nat>)
    requires GroupsUpTo(l, r, m, classes, befores, afters, n, groups, owners)
    ensures AllGroupsDisjoint(groups)
  {
  }
}
