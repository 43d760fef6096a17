/** The stable core of a whole region, gathered from its interaction components. */
module RegionCore {
  import opened Wrappers
  import opened Finite
  import opened Chains
  import opened Syntax
  import opened Mappings
  import opened Buckets
  import opened ShapeClasses
  import opened CandidateGroups
  import opened Claims
  import opened Connectivity
  import opened Components
  import opened StableCore
  import opened Interaction
  import Alignment
  import Sorting

  // ----- what a region reports

  /** What one component contributes: its stable core when it is small enough to align, all of it when it is not. */
  ghost predicate Contributes(l: Tree, r: Tree, m: Mapping, cg: CandidateGroups, c: Component, part: Outcome) {
    && Reports(l, r, m, cg, c, part)
    && if Alignment.WithinAlignmentLimit(|c.before|, |c.after|)
       then Sharp(cg, c, RegionCells(l, r, m, c.before, c.after), part)
       else part == OversizedOutcome(c, AllScanned(cg, c))
  }

  function Append(o: Outcome, more: Outcome): Outcome {
    Outcome(o.forced + more.forced, o.ambiguities + more.ambiguities)
  }

  function Joined(parts: seq<Outcome>): Outcome {
    if parts == [] then Outcome([], []) else Append(Joined(parts[..|parts| - 1]), parts[|parts| - 1])
  }

  /** How a region was solved: its shape classes, its groups, its components, where it was cut, and what each component
      contributed. */
  datatype Division = Division(classes: seq<ShapeClass>, cg: CandidateGroups, components: seq<Component>,
                               cuts: seq<Span>, parts: seq<Outcome>)

  ghost predicate Divides(l: Tree, r: Tree, m: Mapping, befores: seq<nat>, afters: seq<nat>, d: Division) {
    && AllClasses(l, r, d.classes, befores, afters) && UnscannedExactly(d.classes, |d.classes|, d.cg.groups)
    && ValidGroups(l, r, m, befores, afters, d.cg) && Decomposition(l, r, m, d.cg, befores, afters, d.components)
    && FinestSlices(d.cg, befores, afters, d.components, d.cuts)
    && |d.parts| == |d.components|
    && forall j :: 0 <= j < |d.parts| ==> Contributes(l, r, m, d.cg, d.components[j], d.parts[j])
  }

  ghost predicate AlignedIn(c: Component, b: nat, a: nat) {
    b in c.before && a in c.after && Alignment.WithinAlignmentLimit(|c.before|, |c.after|)
  }

  /** Every optimum of the whole region contains the pair, it is alone in its group, and its component can be
      aligned. */
  ghost predicate MustAssert(l: Tree, r: Tree, m: Mapping, befores: seq<nat>, afters: seq<nat>, d: Division, b: nat,
                             a: nat)
  {
    && PairInEvery(l, r, m, befores, afters, b, a) && SingletonGroup(d.cg, b)
    && exists j :: 0 <= j < |d.components| && AlignedIn(d.components[j], b, a)
  }

  function Ids(c: Component, onBefore: bool): seq<nat> {
    if onBefore then c.before else c.after
  }

  function Endpoints(ambiguity: Ambiguity, onBefore: bool): seq<nat> {
    if onBefore then ambiguity.before else ambiguity.after
  }

  ghost predicate OpenIn(l: Tree, r: Tree, m: Mapping, cg: CandidateGroups, c: Component, onBefore: bool, id: nat) {
    && id in Ids(c, onBefore)
    && (Alignment.WithinAlignmentLimit(|c.before|, |c.after|) ==>
          LeftOpen(cg, c, RegionCells(l, r, m, c.before, c.after), onBefore, id))
  }

  /** The id belongs to a component too large to align, or a pair that some optimum contains but that cannot be asserted
      involves it or its group. */
  ghost predicate StaysOpen(l: Tree, r: Tree, m: Mapping, d: Division, onBefore: bool, id: nat) {
    exists j :: 0 <= j < |d.components| && OpenIn(l, r, m, d.cg, d.components[j], onBefore, id)
  }

  ghost predicate NamedAmbiguous(o: Outcome, onBefore: bool, id: nat) {
    exists k :: 0 <= k < |o.ambiguities| && id in Endpoints(o.ambiguities[k], onBefore)
  }

  /** Exactly the pairs that must be asserted are, exactly the ids left open are named ambiguous, and every ambiguity is
      that of one component. */
  ghost predicate Explains(l: Tree, r: Tree, m: Mapping, befores: seq<nat>, afters: seq<nat>, o: Outcome, d: Division) {
    && Divides(l, r, m, befores, afters, d)
    && o.ambiguities == Joined(d.parts).ambiguities
    && (forall b: nat, a: nat :: (b, a) in o.forced <==> MustAssert(l, r, m, befores, afters, d, b, a))
    && (forall onBefore, id :: NamedAmbiguous(o, onBefore, id) <==> StaysOpen(l, r, m, d, onBefore, id))
  }

  ghost predicate AmbiguitiesApart(a: Ambiguity, b: Ambiguity) {
    && (forall id :: id in a.before ==> id !in b.before)
    && (forall id :: id in a.after ==> id !in b.after)
  }

  /** Every asserted pair is in every maximum ordered alignment of the whole region; every pair of some maximum is
      asserted or has both endpoints in one ambiguity; no endpoint is claimed twice; and the region divides into
      components that say exactly what is asserted and what is left open. */
  ghost predicate RegionReports(l: Tree, r: Tree, m: Mapping, befores: seq<nat>, afters: seq<nat>, o: Outcome) {
    && NoRepeats(o.forced)
    && (forall p :: p in o.forced ==>
                      p.0 in befores && p.1 in afters && PairInEvery(l, r, m, befores, afters, p.0, p.1))
    && (forall b, a :: b in befores && a in afters && PairInSome(l, r, m, befores, afters, b, a) ==>
                         (b, a) in o.forced || Clouded(o.ambiguities, b, a))
    && (forall k :: 0 <= k < |o.ambiguities| ==> GoodAmbiguity(befores, afters, o.forced, o.ambiguities[k]))
    && (forall j, k :: 0 <= j < k < |o.ambiguities| ==> AmbiguitiesApart(o.ambiguities[j], o.ambiguities[k]))
    && (exists d :: Explains(l, r, m, befores, afters, o, d))
  }

  ghost predicate GoodAmbiguity(befores: seq<nat>, afters: seq<nat>, forced: seq<Pair>, ambiguity: Ambiguity) {
    && ambiguity.before != [] && ambiguity.after != []
    && SubList(ambiguity.before, befores) && SubList(ambiguity.after, afters)
    && forall p :: p in forced ==> p.0 !in ambiguity.before && p.1 !in ambiguity.after
  }

  /** Asserted pairs never share an endpoint and never cross. */
  lemma ForcedOrdered(l: Tree, r: Tree, m: Mapping, befores: seq<nat>, afters: seq<nat>, p: Pair, q: Pair)
    requires ValidIds(l, befores) && ValidIds(r, afters) && p != q
    requires PairInEvery(l, r, m, befores, afters, p.0, p.1) && PairInEvery(l, r, m, befores, afters, q.0, q.1)
    ensures p.0 != q.0 && p.1 != q.1
    ensures exists x, y :: At(befores, afters, p.0, p.1, x) && At(befores, afters, q.0, q.1, y) &&
              (Before(x, y) || Before(y, x))
  {
    hide WellFormed, Compatible;
    var cells := RegionCells(l, r, m, befores, afters);
    var x :| At(befores, afters, p.0, p.1, x) && x in cells && InEvery(cells, x);
    var y :| At(befores, afters, q.0, q.1, y) && y in cells && InEvery(cells, y);
    var a := MaximumExists(cells);
    assert x in a && y in a && x != y;
    assert Before(x, y) || Before(y, x);
  }

  lemma ForcedCompatible(l: Tree, r: Tree, m: Mapping, befores: seq<nat>, afters: seq<nat>, b: nat, a: nat)
    requires PairInEvery(l, r, m, befores, afters, b, a)
    ensures Compatible(l, r, m, b, a)
  {
    hide Compatible, InEvery;
  }

  // ----- joining what the components contribute

  lemma {:induction false} JoinedForced(parts: seq<Outcome>, p: Pair)
    ensures p in Joined(parts).forced <==> exists j :: 0 <= j < |parts| && p in parts[j].forced
    decreases |parts|
  {
    if parts != [] {
      var n := |parts| - 1;
      JoinedForced(parts[..n], p);
      if j :| 0 <= j < |parts| && p in parts[j].forced {
        assert j < n ==> p in parts[..n][j].forced;
      }
    }
  }

  /** The component an ambiguity of the joined outcome comes from. */
  ghost function Owner(parts: seq<Outcome>, k: nat): (j: nat)
    requires k < |Joined(parts).ambiguities| && forall j :: 0 <= j < |parts| ==> |parts[j].ambiguities| <= 1
    ensures j < |parts| && parts[j].ambiguities == [Joined(parts).ambiguities[k]]
    decreases |parts|
  {
    var n := |parts| - 1;
    if k < |Joined(parts[..n]).ambiguities| then Owner(parts[..n], k)
    else
      assert parts[n].ambiguities[0] == Joined(parts).ambiguities[k];
      n
  }

  lemma {:induction false} OwnersIncrease(parts: seq<Outcome>, j: nat, k: nat)
    requires j < k < |Joined(parts).ambiguities| && forall i :: 0 <= i < |parts| ==> |parts[i].ambiguities| <= 1
    ensures Owner(parts, j) < Owner(parts, k)
    decreases |parts|
  {
    var n := |parts| - 1;
    if k < |Joined(parts[..n]).ambiguities| {
      OwnersIncrease(parts[..n], j, k);
    } else {
      assert j < |Joined(parts[..n]).ambiguities|;
    }
  }

  lemma {:induction false} OwnedAmbiguity(parts: seq<Outcome>, j: nat) returns (k: nat)
    requires j < |parts| && |parts[j].ambiguities| == 1
    ensures k < |Joined(parts).ambiguities| && Joined(parts).ambiguities[k] == parts[j].ambiguities[0]
    decreases |parts|
  {
    var n := |parts| - 1;
    if j < n {
      k := OwnedAmbiguity(parts[..n], j);
    } else {
      k := |Joined(parts[..n]).ambiguities|;
    }
  }

  ghost predicate Apart(components: seq<Component>) {
    forall j, k :: 0 <= j < |components| && 0 <= k < |components| && j != k ==>
        ComponentsApart(components[j], components[k])
  }

  /** The parts of the first components, each asserting only pairs of its own. */
  ghost predicate PartsOf(components: seq<Component>, parts: seq<Outcome>) {
    && |parts| <= |components| && Apart(components)
    && forall j :: 0 <= j < |parts| ==> PartOf(components[j], parts[j])
  }

  ghost predicate PartOf(c: Component, part: Outcome) {
    && NoRepeats(part.forced) && |part.ambiguities| <= 1
    && (forall p :: p in part.forced ==> p.0 in c.before && p.1 in c.after)
  }

  lemma {:induction false} JoinedNoRepeats(components: seq<Component>, parts: seq<Outcome>)
    requires PartsOf(components, parts)
    ensures NoRepeats(Joined(parts).forced)
    decreases |parts|
  {
    if parts != [] {
      var n := |parts| - 1;
      JoinedNoRepeats(components, parts[..n]);
      forall p | p in Joined(parts[..n]).forced ensures p !in parts[n].forced {
        JoinedForced(parts[..n], p);
        var j :| 0 <= j < n && p in parts[..n][j].forced;
        assert PartOf(components[j], parts[j]) && PartOf(components[n], parts[n]);
        assert ComponentsApart(components[j], components[n]);
      }
      AppendedNoRepeats(Joined(parts[..n]).forced, parts[n].forced);
    }
  }

  lemma AppendedNoRepeats(s: seq<Pair>, t: seq<Pair>)
    requires NoRepeats(s) && NoRepeats(t) && forall p :: p in s ==> p !in t
    ensures NoRepeats(s + t)
  {
    forall i, j | 0 <= i < j < |s + t| ensures (s + t)[i] != (s + t)[j] {
      if i < |s| <= j {
        assert (s + t)[i] in s && (s + t)[j] in t;
      }
    }
  }

  // ----- from components to the region

  lemma DivisionParts(l: Tree, r: Tree, m: Mapping, befores: seq<nat>, afters: seq<nat>, d: Division)
    requires Divides(l, r, m, befores, afters, d)
    ensures PartsOf(d.components, d.parts) && |d.parts| == |d.components|
    ensures forall j :: 0 <= j < |d.parts| ==>
              GoodComponent(l, r, m, d.cg, befores, afters, d.components[j]) &&
              Contributes(l, r, m, d.cg, d.components[j], d.parts[j])
  {
    hide ValidGroups, FinestSlices, GoodComponent, Decomposition, AmbiguityFits, Sharp;
    DecompositionParts(l, r, m, d.cg, befores, afters, d.components);
    forall j | 0 <= j < |d.parts| ensures PartOf(d.components[j], d.parts[j]) {
      assert Contributes(l, r, m, d.cg, d.components[j], d.parts[j]);
    }
  }

  lemma AssertedInRegion(l: Tree, r: Tree, m: Mapping, befores: seq<nat>, afters: seq<nat>, d: Division, j: nat,
                         p: Pair)
    requires Divides(l, r, m, befores, afters, d) && j < |d.parts| && p in d.parts[j].forced
    ensures p.0 in befores && p.1 in afters && MustAssert(l, r, m, befores, afters, d, p.0, p.1)
  {
    hide Divides, PairInEvery, PairInSome, OwnsWholeGroups, AmbiguityFits, Sharp, SingletonGroup, PartsOf;
    DivisionParts(l, r, m, befores, afters, d);
    assert AlignedIn(d.components[j], p.0, p.1);
  }

  lemma InEveryIsAsserted(l: Tree, r: Tree, m: Mapping, cg: CandidateGroups, c: Component, part: Outcome, b: nat,
                          a: nat)
    requires Sharp(cg, c, RegionCells(l, r, m, c.before, c.after), part) && SingletonGroup(cg, b)
    requires PairInEvery(l, r, m, c.before, c.after, b, a)
    ensures (b, a) in part.forced
  {
    hide RegionCells, SingletonGroup, LeftOpen, Residual;
    var cells := RegionCells(l, r, m, c.before, c.after);
    var x :| At(c.before, c.after, b, a, x) && x in cells && InEvery(cells, x);
    var w := MaximumExists(cells);
    InEveryInSome(cells, x, w);
    assert Asserted(cg, c, cells, x);
  }

  lemma MustAssertIsAsserted(l: Tree, r: Tree, m: Mapping, befores: seq<nat>, afters: seq<nat>, d: Division, b: nat,
                             a: nat) returns (j: nat)
    requires Divides(l, r, m, befores, afters, d) && MustAssert(l, r, m, befores, afters, d, b, a)
    ensures j < |d.parts| && (b, a) in d.parts[j].forced
  {
    hide Divides, PairInEvery, PairInSome, OwnsWholeGroups, Sharp, SingletonGroup, PartsOf, Reports;
    DivisionParts(l, r, m, befores, afters, d);
    j :| 0 <= j < |d.components| && AlignedIn(d.components[j], b, a);
    InEveryIsAsserted(l, r, m, d.cg, d.components[j], d.parts[j], b, a);
  }

  /** An ambiguity of a component names exactly the ids it leaves open. */
  lemma PartNames(l: Tree, r: Tree, m: Mapping, cg: CandidateGroups, c: Component, part: Outcome, onBefore: bool,
                  id: nat)
    requires Contributes(l, r, m, cg, c, part)
    ensures OpenIn(l, r, m, cg, c, onBefore, id) <==>
            |part.ambiguities| == 1 && id in Endpoints(part.ambiguities[0], onBefore)
  {
    hide RegionCells, Residual, Clouds, AmbiguityFits, PairInEvery, PairInSome, SingletonGroup;
  }

  lemma NamedIsOpen(l: Tree, r: Tree, m: Mapping, befores: seq<nat>, afters: seq<nat>, d: Division, onBefore: bool,
                    id: nat)
    requires Divides(l, r, m, befores, afters, d)
    ensures NamedAmbiguous(Joined(d.parts), onBefore, id) <==> StaysOpen(l, r, m, d, onBefore, id)
  {
    hide Divides, GoodComponent, Contributes, OpenIn, Endpoints;
    DivisionParts(l, r, m, befores, afters, d);
    assert forall j :: 0 <= j < |d.parts| ==> PartOf(d.components[j], d.parts[j]);
    if NamedAmbiguous(Joined(d.parts), onBefore, id) {
      var k :| 0 <= k < |Joined(d.parts).ambiguities| && id in Endpoints(Joined(d.parts).ambiguities[k], onBefore);
      var j := Owner(d.parts, k);
      PartNames(l, r, m, d.cg, d.components[j], d.parts[j], onBefore, id);
    }
    if StaysOpen(l, r, m, d, onBefore, id) {
      var j :| 0 <= j < |d.components| && OpenIn(l, r, m, d.cg, d.components[j], onBefore, id);
      PartNames(l, r, m, d.cg, d.components[j], d.parts[j], onBefore, id);
      var k := OwnedAmbiguity(d.parts, j);
    }
  }

  lemma CompatibleOwned(l: Tree, r: Tree, m: Mapping, cg: CandidateGroups, befores: seq<nat>, afters: seq<nat>,
                        components: seq<Component>, b: nat, a: nat) returns (j: nat)
    requires Decomposition(l, r, m, cg, befores, afters, components)
    requires b in befores && a in afters && PairInSome(l, r, m, befores, afters, b, a)
    ensures j < |components| && b in components[j].before && a in components[j].after
    ensures PairInSome(l, r, m, components[j].before, components[j].after, b, a)
  {
    hide InSome, PairInEvery, OwnsWholeGroups, Optimum, Compatible, SubList, ComponentsApart;
    assert Compatible(l, r, m, b, a);
    assert InOneComponent(components, b, a);
    j :| 0 <= j < |components| && b in components[j].before && a in components[j].after;
    assert GoodComponent(l, r, m, cg, befores, afters, components[j]);
  }

  lemma CoveredInRegion(l: Tree, r: Tree, m: Mapping, befores: seq<nat>, afters: seq<nat>, d: Division, b: nat, a: nat)
    requires Divides(l, r, m, befores, afters, d)
    requires b in befores && a in afters && PairInSome(l, r, m, befores, afters, b, a)
    ensures (b, a) in Joined(d.parts).forced || Clouded(Joined(d.parts).ambiguities, b, a)
  {
    hide PairInSome, PairInEvery, AmbiguityFits, Sharp, Decomposition, SingletonGroup, FinestSlices, ValidGroups;
    var j := CompatibleOwned(l, r, m, d.cg, befores, afters, d.components, b, a);
    assert Contributes(l, r, m, d.cg, d.components[j], d.parts[j]);
    if (b, a) in d.parts[j].forced {
      JoinedForced(d.parts, (b, a));
    } else {
      var k := OwnedAmbiguity(d.parts, j);
    }
  }

  lemma OwnedFits(l: Tree, r: Tree, m: Mapping, befores: seq<nat>, afters: seq<nat>, d: Division, k: nat)
    returns (j: nat)
    requires Divides(l, r, m, befores, afters, d) && k < |Joined(d.parts).ambiguities|
    ensures (forall i :: 0 <= i < |d.parts| ==> |d.parts[i].ambiguities| <= 1) && j == Owner(d.parts, k)
    ensures j < |d.components| && j < |d.parts| && GoodComponent(l, r, m, d.cg, befores, afters, d.components[j])
    ensures AmbiguityFits(l, r, m, d.cg, d.components[j], d.parts[j].forced, Joined(d.parts).ambiguities[k])
  {
    hide Divides, GoodComponent, AmbiguityFits, Sharp, PairInEvery, PairInSome, SingletonGroup;
    DivisionParts(l, r, m, befores, afters, d);
    assert forall i :: 0 <= i < |d.parts| ==> PartOf(d.components[i], d.parts[i]);
    j := Owner(d.parts, k);
    assert d.parts[j].ambiguities[0] == Joined(d.parts).ambiguities[k];
  }

  lemma JoinedAmbiguity(l: Tree, r: Tree, m: Mapping, befores: seq<nat>, afters: seq<nat>, d: Division, k: nat)
    requires Divides(l, r, m, befores, afters, d) && k < |Joined(d.parts).ambiguities|
    ensures GoodAmbiguity(befores, afters, Joined(d.parts).forced, Joined(d.parts).ambiguities[k])
  {
    hide Divides, ConstraintMeans, PairInEvery, PairInSome, ComponentExact, OwnsWholeGroups, Contributes;
    var j := OwnedFits(l, r, m, befores, afters, d, k);
    var ambiguity, o := Joined(d.parts).ambiguities[k], Joined(d.parts);
    DivisionParts(l, r, m, befores, afters, d);
    forall p | p in o.forced ensures p.0 !in ambiguity.before && p.1 !in ambiguity.after {
      JoinedForced(d.parts, p);
      var i :| 0 <= i < |d.parts| && p in d.parts[i].forced;
      assert PartOf(d.components[i], d.parts[i]);
      assert i != j ==> ComponentsApart(d.components[i], d.components[j]);
    }
  }

  lemma JoinedApart(l: Tree, r: Tree, m: Mapping, befores: seq<nat>, afters: seq<nat>, d: Division, j: nat, k: nat)
    requires Divides(l, r, m, befores, afters, d) && j < k < |Joined(d.parts).ambiguities|
    ensures AmbiguitiesApart(Joined(d.parts).ambiguities[j], Joined(d.parts).ambiguities[k])
  {
    hide Divides, ConstraintMeans, GoodComponent, Contributes;
    var c := OwnedFits(l, r, m, befores, afters, d, j);
    var e := OwnedFits(l, r, m, befores, afters, d, k);
    OwnersIncrease(d.parts, j, k);
    DivisionParts(l, r, m, befores, afters, d);
    assert ComponentsApart(d.components[c], d.components[e]);
  }

  lemma DivisionReports(l: Tree, r: Tree, m: Mapping, befores: seq<nat>, afters: seq<nat>, d: Division, o: Outcome)
    requires Divides(l, r, m, befores, afters, d)
    requires o == Joined(d.parts).(forced := Sorting.Sort(PairLe, Joined(d.parts).forced))
    ensures RegionReports(l, r, m, befores, afters, o)
  {
    hide Divides, PairInEvery, PairInSome, GoodAmbiguity, AmbiguitiesApart, StaysOpen, MustAssert, Sorting.Sort;
    hide Endpoints, Contributes, GoodComponent, PartsOf, Joined, Clouded, Explains, NoRepeats;
    var joined := Joined(d.parts);
    DivisionParts(l, r, m, befores, afters, d);
    JoinedNoRepeats(d.components, d.parts);
    SortKeeps(joined.forced);
    DivisionAsserts(l, r, m, befores, afters, d);
    DivisionExplains(l, r, m, befores, afters, d, o);
    forall b, a | b in befores && a in afters && PairInSome(l, r, m, befores, afters, b, a)
      ensures (b, a) in o.forced || Clouded(o.ambiguities, b, a)
    {
      CoveredInRegion(l, r, m, befores, afters, d, b, a);
    }
    forall k | 0 <= k < |o.ambiguities| ensures GoodAmbiguity(befores, afters, o.forced, o.ambiguities[k]) {
      JoinedAmbiguity(l, r, m, befores, afters, d, k);
      SameForcedGood(befores, afters, joined.forced, o.forced, o.ambiguities[k]);
    }
    forall j, k | 0 <= j < k < |o.ambiguities| ensures AmbiguitiesApart(o.ambiguities[j], o.ambiguities[k]) {
      JoinedApart(l, r, m, befores, afters, d, j, k);
    }
    forall p | p in o.forced
      ensures p.0 in befores && p.1 in afters && PairInEvery(l, r, m, befores, afters, p.0, p.1)
    {
      assert p in joined.forced;
    }
  }

  lemma SameForcedGood(befores: seq<nat>, afters: seq<nat>, forced: seq<Pair>, others: seq<Pair>, ambiguity: Ambiguity)
    requires GoodAmbiguity(befores, afters, forced, ambiguity) && forall p :: p in others <==> p in forced
    ensures GoodAmbiguity(befores, afters, others, ambiguity)
  {
  }

  lemma DivisionAsserts(l: Tree, r: Tree, m: Mapping, befores: seq<nat>, afters: seq<nat>, d: Division)
    requires Divides(l, r, m, befores, afters, d)
    ensures forall p :: p in Joined(d.parts).forced ==>
              p.0 in befores && p.1 in afters && PairInEvery(l, r, m, befores, afters, p.0, p.1)
    ensures forall b: nat, a: nat ::
              (b, a) in Joined(d.parts).forced <==> MustAssert(l, r, m, befores, afters, d, b, a)
  {
    hide Divides, PairInEvery, SingletonGroup, AlignedIn;
    forall p: Pair | p in Joined(d.parts).forced
      ensures p.0 in befores && p.1 in afters && MustAssert(l, r, m, befores, afters, d, p.0, p.1)
    {
      JoinedForced(d.parts, p);
      var j :| 0 <= j < |d.parts| && p in d.parts[j].forced;
      AssertedInRegion(l, r, m, befores, afters, d, j, p);
    }
    forall b: nat, a: nat | MustAssert(l, r, m, befores, afters, d, b, a) ensures (b, a) in Joined(d.parts).forced {
      var j := MustAssertIsAsserted(l, r, m, befores, afters, d, b, a);
      JoinedForced(d.parts, (b, a));
    }
  }

  lemma DivisionExplains(l: Tree, r: Tree, m: Mapping, befores: seq<nat>, afters: seq<nat>, d: Division, o: Outcome)
    requires Divides(l, r, m, befores, afters, d) && o.ambiguities == Joined(d.parts).ambiguities
    requires forall p :: p in o.forced <==> p in Joined(d.parts).forced
    ensures Explains(l, r, m, befores, afters, o, d)
  {
    hide Divides, MustAssert, StaysOpen, Endpoints;
    DivisionAsserts(l, r, m, befores, afters, d);
    forall onBefore, id ensures NamedAmbiguous(o, onBefore, id) <==> StaysOpen(l, r, m, d, onBefore, id) {
      NamedIsOpen(l, r, m, befores, afters, d, onBefore, id);
    }
  }

  lemma DecompositionParts(l: Tree, r: Tree, m: Mapping, cg: CandidateGroups, befores: seq<nat>, afters: seq<nat>,
                           components: seq<Component>)
    requires Decomposition(l, r, m, cg, befores, afters, components)
    ensures Apart(components)
    ensures forall k :: 0 <= k < |components| ==> GoodComponent(l, r, m, cg, befores, afters, components[k])
  {
    hide GoodComponent, Compatible, Optimum, ComponentsApart;
  }

  // ----- what is asserted, by the proposed pairs

  /** No other proposed pair of the region involves b or a. */
  ghost predicate OnlyPartners(l: Tree, r: Tree, m: Mapping, befores: seq<nat>, afters: seq<nat>, b: nat, a: nat)
    requires WellFormed(l) && WellFormed(r) && Sized(l, r, m)
  {
    && (forall other :: other in afters && Proposed(l, r, m, b, other) ==> other == a)
    && (forall other :: other in befores && Proposed(l, r, m, other, a) ==> other == b)
  }

  lemma OnlyEdge(l: Tree, r: Tree, m: Mapping, befores: seq<nat>, afters: seq<nat>, b: nat, a: nat, u: nat, v: nat)
    requires WellFormed(l) && WellFormed(r) && Sized(l, r, m) && OnlyPartners(l, r, m, befores, afters, b, a)
    requires u == BeforeVertex(b) || u == AfterVertex(a)
    requires Linked(RegionEdges(l, r, m, befores, afters), u, v)
    ensures v == BeforeVertex(b) || v == AfterVertex(a)
  {
    hide WellFormed, Proposed, Compatible;
    var x, y :| x in befores && y in afters && Compatible(l, r, m, x, y) &&
                ((u == BeforeVertex(x) && v == AfterVertex(y)) || (v == BeforeVertex(x) && u == AfterVertex(y)));
    CompatibleExactly(l, r, m, x, y);
  }

  lemma PartnersAlone(l: Tree, r: Tree, m: Mapping, befores: seq<nat>, afters: seq<nat>, g: CandidateGroup, b: nat,
                      a: nat)
    requires WellFormed(l) && WellFormed(r) && Sized(l, r, m) && OnlyPartners(l, r, m, befores, afters, b, a)
    requires IsComponent(RegionEdges(l, r, m, befores, afters), g) && b in g.before && a in g.after
    ensures forall c: nat :: (c in g.before ==> c == b) && (c in g.after ==> c == a)
  {
    hide WellFormed, OnlyPartners, RegionEdges, Linked, Connected;
    var edges := RegionEdges(l, r, m, befores, afters);
    forall u, v: nat | u in {BeforeVertex(b), AfterVertex(a)} && Linked(edges, u, v)
      ensures v in {BeforeVertex(b), AfterVertex(a)}
    {
      OnlyEdge(l, r, m, befores, afters, b, a, u, v);
    }
    assert VertexIn(g, BeforeVertex(b));
    forall x: nat | VertexIn(g, x) ensures x in {BeforeVertex(b), AfterVertex(a)} {
      ConnectedStaysIn(edges, {BeforeVertex(b), AfterVertex(a)}, BeforeVertex(b), x);
    }
    forall c: nat ensures (c in g.before ==> c == b) && (c in g.after ==> c == a) {
      assert VertexIn(g, BeforeVertex(c)) <==> c in g.before;
      assert VertexIn(g, AfterVertex(c)) <==> c in g.after;
    }
  }

  lemma SizeOne(s: seq<nat>, x: nat)
    requires Distinct(s) && x in s
    ensures |s| == 1 <==> forall y :: y in s ==> y == x
  {
    assert forall k :: 0 <= k < |s| ==> s[k] in s;
    assert !(|s| > 1 && s[0] == s[1]);
  }

  /** In a scanned group, being alone means having no other partner. */
  lemma SingletonExactly(l: Tree, r: Tree, m: Mapping, cg: CandidateGroups, befores: seq<nat>, afters: seq<nat>, b: nat,
                         a: nat)
    requires ValidGroups(l, r, m, befores, afters, cg) && Sized(l, r, m)
    requires b in befores && a in afters && Compatible(l, r, m, b, a)
    requires b in cg.beforeGroup && cg.beforeGroup[b] < |cg.groups| && cg.groups[cg.beforeGroup[b]].scanComplete
    ensures SingletonGroup(cg, b) <==> OnlyPartners(l, r, m, befores, afters, b, a)
  {
    hide WellFormed, Compatible, Proposed, RegionEdges, IsComponent, AllGroupsDisjoint, SameShape;
    var k := cg.beforeGroup[b];
    var g := cg.groups[k];
    assert RegionGroup(l, r, m, befores, afters, g);
    SharedGroup(l, r, m, cg, befores, afters, b, a);
    SizeOne(g.before, b);
    SizeOne(g.after, a);
    if OnlyPartners(l, r, m, befores, afters, b, a) {
      PartnersAlone(l, r, m, befores, afters, g, b, a);
    }
    if SingletonGroup(cg, b) {
      forall other | other in afters && Proposed(l, r, m, b, other) ensures other == a {
        CompatibleExactly(l, r, m, b, other);
        SharedGroup(l, r, m, cg, befores, afters, b, other);
      }
      forall other | other in befores && Proposed(l, r, m, other, a) ensures other == b {
        CompatibleExactly(l, r, m, other, a);
        SharedGroup(l, r, m, cg, befores, afters, other, a);
        OneGroup(cg.groups, false, cg.afterGroup, cg.beforeGroup[other], k, a);
        assert |g.before| == 1 && other in g.before;
      }
    }
  }

  lemma OneGroup(groups: seq<CandidateGroup>, before: bool, index: map<nat, nat>, j: nat, k: nat, x: nat)
    requires IndexesSide(groups, before, |groups|, index) && j < |groups| && k < |groups|
    requires x in Side(groups[j], before) && x in Side(groups[k], before)
    ensures j == k
  {
    assert index[x] == j && index[x] == k;
  }

  lemma SharedGroup(l: Tree, r: Tree, m: Mapping, cg: CandidateGroups, befores: seq<nat>, afters: seq<nat>, b: nat,
                    a: nat)
    requires ValidGroups(l, r, m, befores, afters, cg) && b in befores && a in afters && Compatible(l, r, m, b, a)
    ensures b in cg.beforeGroup && cg.beforeGroup[b] < |cg.groups|
    ensures b in cg.groups[cg.beforeGroup[b]].before && a in cg.groups[cg.beforeGroup[b]].after
  {
    hide WellFormed, Compatible, RegionGroup, AllGroupsDisjoint;
    assert Grouped(cg.groups, b, a);
    var k :| 0 <= k < |cg.groups| && b in cg.groups[k].before && a in cg.groups[k].after;
    assert b in Side(cg.groups[k], true);
  }

  /** A pair is asserted exactly when it is in every maximum ordered alignment of the region, no other proposed pair of
      the region involves either end, and its component has at most 64 ids on either side. */
  lemma RegionAsserts(l: Tree, r: Tree, m: Mapping, befores: seq<nat>, afters: seq<nat>, o: Outcome, d: Division,
                      b: nat, a: nat)
    requires ValidIds(l, befores) && ValidIds(r, afters) && Sized(l, r, m)
    requires Explains(l, r, m, befores, afters, o, d)
    ensures (b, a) in o.forced <==>
            && PairInEvery(l, r, m, befores, afters, b, a) && OnlyPartners(l, r, m, befores, afters, b, a)
            && exists j :: 0 <= j < |d.components| && b in d.components[j].before && a in d.components[j].after &&
                           |d.components[j].before| <= 64 && |d.components[j].after| <= 64
  {
    hide PairInEvery, SingletonGroup, StaysOpen, WellFormed, FinestSlices, Contributes, ValidGroups, OnlyPartners;
    hide Compatible, AllClasses, UnscannedExactly, Decomposition;
    if PairInEvery(l, r, m, befores, afters, b, a) {
      InEveryIsInSome(l, r, m, befores, afters, b, a);
      ForcedCompatible(l, r, m, befores, afters, b, a);
      if j :| 0 <= j < |d.components| && AlignedIn(d.components[j], b, a) {
        DecompositionParts(l, r, m, d.cg, befores, afters, d.components);
        AlignedSingleton(l, r, m, d.cg, befores, afters, d.components[j], b, a);
      }
    }
  }

  lemma AlignedSingleton(l: Tree, r: Tree, m: Mapping, cg: CandidateGroups, befores: seq<nat>, afters: seq<nat>,
                         c: Component, b: nat, a: nat)
    requires InRegion(l, r, m, cg, befores, afters, c) && AlignedIn(c, b, a)
    requires b in befores && a in afters && Compatible(l, r, m, b, a)
    ensures SingletonGroup(cg, b) <==> OnlyPartners(l, r, m, befores, afters, b, a)
  {
    hide WellFormed, Compatible, InRegion, SingletonGroup, OnlyPartners, ValidGroups, IsComponent;
    RegionIsValid(l, r, m, cg, befores, afters, c);
    AlignedIsScanned(l, r, m, cg, befores, afters, c);
    SharedGroup(l, r, m, cg, befores, afters, b, a);
    SingletonExactly(l, r, m, cg, befores, afters, b, a);
  }

  /** In a region of at most 64 ids on either side, a pair is asserted exactly when it is in every maximum ordered
      alignment of the region and no other proposed pair involves either end. */
  lemma SmallRegionAsserts(l: Tree, r: Tree, m: Mapping, befores: seq<nat>, afters: seq<nat>, o: Outcome, d: Division,
                           b: nat, a: nat)
    requires ValidIds(l, befores) && ValidIds(r, afters) && Sized(l, r, m)
    requires Explains(l, r, m, befores, afters, o, d) && |befores| <= 64 && |afters| <= 64
    ensures (b, a) in o.forced <==>
            PairInEvery(l, r, m, befores, afters, b, a) && OnlyPartners(l, r, m, befores, afters, b, a)
  {
    hide PairInSome, SingletonGroup, StaysOpen, WellFormed, Decomposition, FinestSlices, Contributes, ValidGroups;
    hide PairInEvery, OnlyPartners, Compatible;
    RegionAsserts(l, r, m, befores, afters, o, d, b, a);
    if PairInEvery(l, r, m, befores, afters, b, a) {
      InEveryIsInSome(l, r, m, befores, afters, b, a);
      ForcedCompatible(l, r, m, befores, afters, b, a);
      var j := CompatibleOwned(l, r, m, d.cg, befores, afters, d.components, b, a);
      DecompositionParts(l, r, m, d.cg, befores, afters, d.components);
      assert GoodComponent(l, r, m, d.cg, befores, afters, d.components[j]);
      SubListSize(d.components[j].before, befores);
      SubListSize(d.components[j].after, afters);
    }
  }

  lemma InEveryIsInSome(l: Tree, r: Tree, m: Mapping, befores: seq<nat>, afters: seq<nat>, b: nat, a: nat)
    requires PairInEvery(l, r, m, befores, afters, b, a)
    ensures PairInSome(l, r, m, befores, afters, b, a) && b in befores && a in afters
  {
    hide RegionCells;
    var cells := RegionCells(l, r, m, befores, afters);
    var x :| At(befores, afters, b, a, x) && x in cells && InEvery(cells, x);
    var w := MaximumExists(cells);
    InEveryInSome(cells, x, w);
  }

  // ----- what an exact constraint of a region means

  /** The required number of listed pairs, in order, completes the settled pairs to a maximum alignment, and nothing
      else does; and every maximum alignment holds the settled pairs. */
  ghost predicate EncodesOptima(cells: set<Cell>, c: Component, settled: seq<Pair>, required: nat,
                                possible: seq<Pair>)
  {
    && (forall choice: set<Cell> ::
          Resolution(CellsOfPairs(c, possible), required, choice) <==>
          choice !! CellsOfPairs(c, settled) && Maximum(cells, choice + CellsOfPairs(c, settled)))
    && (forall a: set<Cell> :: Maximum(cells, a) ==> CellsOfPairs(c, settled) <= a)
  }

  lemma EncodingEncodes(cells: set<Cell>, c: Component, settled: seq<Pair>, required: nat, possible: seq<Pair>)
    requires ExactEncoding(cells, c, settled, required, possible)
    ensures EncodesOptima(cells, c, settled, required, possible)
  {
    hide ExactEncoding, Resolution, CellsOfPairs, Maximum;
    forall choice: set<Cell> {
      ExactConstraintEncodes(cells, c, settled, required, possible, choice);
    }
    forall a: set<Cell> | Maximum(cells, a) ensures CellsOfPairs(c, settled) <= a {
      SettledIsForced(cells, c, settled, required, possible);
      MaximumHoldsForced(cells, a);
    }
  }

  lemma SettledIsForced(cells: set<Cell>, c: Component, settled: seq<Pair>, required: nat, possible: seq<Pair>)
    requires ExactEncoding(cells, c, settled, required, possible)
    ensures CellsOfPairs(c, settled) == Chains.Forced(cells)
  {
  }

  /** Inside one component, the region asserts what the component does. */
  lemma SettledOfComponent(l: Tree, r: Tree, m: Mapping, befores: seq<nat>, afters: seq<nat>, o: Outcome, d: Division,
                           j: nat)
    requires Explains(l, r, m, befores, afters, o, d) && j < |d.components| && j < |d.parts|
    ensures CellsOfPairs(d.components[j], o.forced) == CellsOfPairs(d.components[j], d.parts[j].forced)
  {
    hide Divides, MustAssert, StaysOpen, NamedAmbiguous, GoodComponent, Contributes;
    DivisionParts(l, r, m, befores, afters, d);
    var c := d.components[j];
    forall b: nat, a: nat | b in c.before && a in c.after ensures (b, a) in o.forced <==> (b, a) in d.parts[j].forced {
      if (b, a) in o.forced {
        var i := MustAssertIsAsserted(l, r, m, befores, afters, d, b, a);
        assert PartOf(d.components[i], d.parts[i]);
        assert i == j;
      }
      if (b, a) in d.parts[j].forced {
        AssertedInRegion(l, r, m, befores, afters, d, j, (b, a));
      }
    }
    assert forall k :: 0 <= k < |c.before| ==> c.before[k] in c.before;
    assert forall k :: 0 <= k < |c.after| ==> c.after[k] in c.after;
  }

  /** An exact ambiguity of a region encodes the maximum alignments of one of its components. */
  lemma ExactAmbiguityEncodes(l: Tree, r: Tree, m: Mapping, befores: seq<nat>, afters: seq<nat>, o: Outcome,
                              d: Division, k: nat) returns (j: nat)
    requires Explains(l, r, m, befores, afters, o, d)
    requires k < |o.ambiguities| && o.ambiguities[k].constraint.ExactOrderedAlignment?
    ensures j < |d.components|
    ensures SubList(o.ambiguities[k].before, d.components[j].before)
    ensures SubList(o.ambiguities[k].after, d.components[j].after)
    ensures var c := d.components[j];
            EncodesOptima(RegionCells(l, r, m, c.before, c.after), c, o.forced,
                          o.ambiguities[k].constraint.requiredMatches, o.ambiguities[k].constraint.possiblePairs)
  {
    hide Divides, MustAssert, StaysOpen, NamedAmbiguous, GoodComponent, ExactEncoding, RegionCells, DuplicatesPossible;
    hide EncodesOptima, CellsOfPairs;
    j := OwnedFits(l, r, m, befores, afters, d, k);
    var c, part := d.components[j], d.parts[j];
    var constraint := o.ambiguities[k].constraint;
    var cells := RegionCells(l, r, m, c.before, c.after);
    EncodingEncodes(cells, c, part.forced, constraint.requiredMatches, constraint.possiblePairs);
    SettledOfComponent(l, r, m, befores, afters, o, d, j);
    SameSettled(cells, c, part.forced, o.forced, constraint.requiredMatches, constraint.possiblePairs);
  }

  lemma SameSettled(cells: set<Cell>, c: Component, settled: seq<Pair>, others: seq<Pair>, required: nat,
                    possible: seq<Pair>)
    requires EncodesOptima(cells, c, settled, required, possible) && CellsOfPairs(c, settled) == CellsOfPairs(c, others)
    ensures EncodesOptima(cells, c, others, required, possible)
  {
    hide Resolution, CellsOfPairs, Maximum;
  }

  /** Without candidates there is nothing to divide. */
  lemma NothingCompatible(l: Tree, r: Tree, m: Mapping, befores: seq<nat>, afters: seq<nat>, classes: seq<ShapeClass>)
    requires AllClasses(l, r, classes, befores, afters) && classes == []
    ensures Divides(l, r, m, befores, afters, Division([], CandidateGroups([], map[], map[]), [], [], []))
  {
    hide WellFormed, CanMapShapePair, SameShape;
    var cg := CandidateGroups([], map[], map[]);
    forall b, a ensures !Together(classes, b, a) {
    }
    forall b, a | b in befores && a in afters ensures !Compatible(l, r, m, b, a) {
    }
    assert ValidGroups(l, r, m, befores, afters, cg);
    assert RegionCells(l, r, m, befores, afters) == {};
    NothingOptimal();
    HasMember(Active(befores, cg.beforeGroup));
    HasMember(Active(afters, cg.afterGroup));
  }

  lemma ForcedAscend(pairs: seq<Pair>)
    requires NoRepeats(pairs)
    ensures var s := Sorting.Sort(PairLe, pairs);
            forall i, j :: 0 <= i < j < |s| ==> s[i].0 < s[j].0 || (s[i].0 == s[j].0 && s[i].1 < s[j].1)
  {
    hide Sorting.Sort;
    var s := Sorting.Sort(PairLe, pairs);
    Sorting.SortSorted(PairLe, pairs);
    StableCore.SortKeeps(pairs);
  }

  method BoundedOrderedStableCore(l: Tree, r: Tree, m: Mapping, befores: seq<nat>, afters: seq<nat>)
    returns (o: Outcome)
    requires ValidIds(l, befores) && ValidIds(r, afters) && Sized(l, r, m)
    ensures RegionReports(l, r, m, befores, afters, o)
    ensures forall i, j :: 0 <= i < j < |o.forced| ==>
              o.forced[i].0 < o.forced[j].0 || (o.forced[i].0 == o.forced[j].0 && o.forced[i].1 < o.forced[j].1)
  {
    hide ValidIds, AllClasses, ValidGroups, Decomposition, FinestSlices, RegionReports, GoodComponent, Reports, Apart;
    hide InRegion, Sharp, Sorting.Sort;
    var classes := VerifiedShapeClasses(l, r, befores, afters);
    if classes == [] {
      NothingCompatible(l, r, m, befores, afters, classes);
      var d := Division([], CandidateGroups([], map[], map[]), [], [], []);
      DivisionReports(l, r, m, befores, afters, d, Outcome([], Joined(d.parts).ambiguities));
      return Outcome([], []);
    }
    var cg := VerifiedCandidateGroups(l, r, m, classes, befores, afters);
    var components;
    ghost var cuts;
    components, cuts := OrderedInteractionComponents(l, r, m, cg, befores, afters);
    DecompositionParts(l, r, m, cg, befores, afters, components);
    o := Outcome([], []);
    ghost var parts: seq<Outcome> := [];
    for n := 0 to |components|
      invariant o == Joined(parts) && |parts| == n
      invariant forall j :: 0 <= j < n ==> Contributes(l, r, m, cg, components[j], parts[j])
    {
      var c := components[n];
      ComponentInRegion(l, r, m, cg, befores, afters, c);
      var more;
      if Alignment.WithinAlignmentLimit(|c.before|, |c.after|) {
        more := BoundedComponentStableCore(l, r, m, cg, befores, afters, c);
      } else {
        more := OversizedAlignmentAmbiguities(l, r, m, cg, befores, afters, c);
        assert more == OversizedOutcome(c, AllScanned(cg, c));
      }
      assert (parts + [more])[..n] == parts;
      o := Append(o, more);
      parts := parts + [more];
    }
    ghost var d := Division(classes, cg, components, cuts, parts);
    o := o.(forced := Sorting.Sort(PairLe, o.forced));
    DivisionReports(l, r, m, befores, afters, d, o);
    DividesNoRepeats(l, r, m, befores, afters, d);
    ForcedAscend(Joined(parts).forced);
  }

  lemma DividesNoRepeats(l: Tree, r: Tree, m: Mapping, befores: seq<nat>, afters: seq<nat>, d: Division)
    requires Divides(l, r, m, befores, afters, d)
    ensures NoRepeats(Joined(d.parts).forced)
  {
    hide Divides, PartsOf, NoRepeats;
    DivisionParts(l, r, m, befores, afters, d);
    JoinedNoRepeats(d.components, d.parts);
  }

  lemma ComponentInRegion(l: Tree, r: Tree, m: Mapping, cg: CandidateGroups, befores: seq<nat>, afters: seq<nat>,
                          c: Component)
    requires ValidIds(l, befores) && ValidIds(r, afters) && Sized(l, r, m)
    requires ValidGroups(l, r, m, befores, afters, cg) && GoodComponent(l, r, m, cg, befores, afters, c)
    ensures InRegion(l, r, m, cg, befores, afters, c)
  {
  }
}
