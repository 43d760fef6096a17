/** Cutting the active children into independent order-interaction components.

    The active children are given by the compatibility group of each: gb[i] for the i-th active before child,
    ga[j] for the j-th active after child. */
module Interaction {
  import opened Chains
  import opened Finite

  /** One component: consecutive active children on both sides, and the groups they belong to. */
  datatype Span = Span(beforeLo: nat, beforeHi: nat, afterLo: nat, afterHi: nat, groups: seq<nat>)

  /** Every group has a member on each side. */
  ghost predicate TwoSided(gb: seq<nat>, ga: seq<nat>, n: nat) {
    && (forall i :: 0 <= i < |gb| ==> gb[i] < n && gb[i] in ga)
    && (forall j :: 0 <= j < |ga| ==> ga[j] < n && ga[j] in gb)
  }

  /** The prefixes of p before children and q after children hold both endpoints of a compatible pair or none:
      choices on the two sides of the cut cannot share an endpoint or cross. */
  ghost predicate IsCut(gb: seq<nat>, ga: seq<nat>, p: nat, q: nat) {
    && p <= |gb| && q <= |ga|
    && forall i, j :: 0 <= i < |gb| && 0 <= j < |ga| && gb[i] == ga[j] ==> (i < p <==> j < q)
  }

  /** The groups met at the positions from lo up to hi. */
  ghost function Met(s: seq<nat>, lo: nat, hi: nat): set<nat>
    requires lo <= hi <= |s|
  {
    set i: nat | lo <= i < hi :: s[i]
  }

  lemma MetOneMore(s: seq<nat>, lo: nat, hi: nat)
    requires lo <= hi < |s|
    ensures Met(s, lo, hi + 1) == Met(s, lo, hi) + {s[hi]}
  {
  }

  ghost function Members(s: seq<nat>): set<nat> {
    set g | g in s
  }

  // ----- counting positions

  ghost function PositionsOf(s: seq<nat>, groups: set<nat>): set<nat> {
    set j: nat | j < |s| && s[j] in groups
  }

  ghost function Below(n: nat): (r: set<nat>)
    ensures forall j: nat :: j in r <==> j < n
  {
    if n == 0 then {} else Below(n - 1) + {n - 1}
  }

  lemma {:induction false} BelowSize(n: nat)
    ensures |Below(n)| == n
  {
    if n > 0 {
      BelowSize(n - 1);
    }
  }

  /** A set of positions bounded by last has last + 1 members iff it is a whole prefix. */
  lemma PrefixIffCounted(positions: set<nat>, last: nat)
    requires forall j :: j in positions ==> j <= last
    ensures |positions| == last + 1 <==> positions == Below(last + 1)
  {
    BelowSize(last + 1);
    SubsetSize(positions, Below(last + 1));
  }

  ghost predicate IsLast(s: seq<nat>, g: nat, last: nat) {
    last < |s| && s[last] == g && forall k :: last < k < |s| ==> s[k] != g
  }

  /** last is the largest position of any of the groups. */
  ghost predicate IsLastOf(s: seq<nat>, groups: set<nat>, last: nat) {
    last < |s| && s[last] in groups && forall k :: last < k < |s| ==> s[k] !in groups
  }

  lemma LastOfUnion(s: seq<nat>, groups: set<nat>, g: nat, prefixLast: nat, last: nat)
    requires groups != {} ==> IsLastOf(s, groups, prefixLast)
    requires groups == {} ==> prefixLast == 0
    requires IsLast(s, g, last)
    ensures IsLastOf(s, groups + {g}, if prefixLast < last then last else prefixLast)
  {
  }

  /** The counters describe exactly the groups met in the first `position` active before children. */
  ghost predicate Counted(gb: seq<nat>, ga: seq<nat>, position: nat, seen: set<nat>, beforeLast: nat, afterLast: nat,
                          afterCount: nat)
  {
    && position <= |gb|
    && seen == Met(gb, 0, position)
    && (seen == {} ==> beforeLast == 0 && afterLast == 0)
    && (seen != {} ==> IsLastOf(gb, seen, beforeLast) && IsLastOf(ga, seen, afterLast))
    && afterCount == |PositionsOf(ga, seen)|
  }

  /** What the sweep tests is exactly that the prefix can be cut. */
  lemma CutExactly(gb: seq<nat>, ga: seq<nat>, n: nat, position: nat, end: nat, seen: set<nat>, beforeLast: nat,
                   afterLast: nat, afterCount: nat)
    requires TwoSided(gb, ga, n) && position < |gb| && end == position + 1
    requires Counted(gb, ga, end, seen, beforeLast, afterLast, afterCount) && seen != {}
    ensures position == beforeLast && afterCount == afterLast + 1 ==> IsCut(gb, ga, end, afterCount)
    ensures forall q :: IsCut(gb, ga, end, q) ==>
                          position == beforeLast && afterCount == afterLast + 1 && q == afterCount
  {
    var positions := PositionsOf(ga, seen);
    PrefixIffCounted(positions, afterLast);
    assert forall i :: 0 <= i <= position ==> gb[i] in seen;
    if position == beforeLast && afterCount == afterLast + 1 {
      forall i, j | 0 <= i < |gb| && 0 <= j < |ga| && gb[i] == ga[j] ensures i < position + 1 <==> j < afterCount {
        assert i < position + 1 <==> gb[i] in seen;
        assert j in positions <==> j in Below(afterLast + 1);
      }
    }
    forall q | IsCut(gb, ga, end, q)
      ensures position == beforeLast && afterCount == afterLast + 1 && q == afterCount
    {
      CutCounts(gb, ga, n, position, seen, beforeLast, afterLast, q);
    }
  }

  lemma CutCounts(gb: seq<nat>, ga: seq<nat>, n: nat, position: nat, seen: set<nat>, beforeLast: nat,
                  afterLast: nat, q: nat)
    requires TwoSided(gb, ga, n) && position < |gb|
    requires seen == Met(gb, 0, position + 1)
    requires IsLastOf(gb, seen, beforeLast) && IsLastOf(ga, seen, afterLast)
    requires IsCut(gb, ga, position + 1, q)
    ensures position == beforeLast && q == afterLast + 1 && |PositionsOf(ga, seen)| == q
  {
    var positions := PositionsOf(ga, seen);
    forall i | 0 <= i < |gb| && gb[i] in seen ensures i <= position {
      var k: nat :| k < position + 1 && gb[k] == gb[i];
      var j :| 0 <= j < |ga| && ga[j] == gb[i];
      assert k < position + 1 <==> j < q;
    }
    assert gb[position] in seen;
    forall j | 0 <= j < |ga| ensures j < q <==> ga[j] in seen {
      var i :| 0 <= i < |gb| && gb[i] == ga[j];
      assert i < position + 1 ==> gb[i] in seen;
    }
    assert positions == Below(q);
    BelowSize(q);
    var j :| 0 <= j < |ga| && ga[j] == gb[position];
    assert j < q && ga[afterLast] in seen && ga[q - 1] in seen;
  }

  // ----- the result

  /** A component is non-empty on both sides and starts where the one before it ended. */
  ghost predicate Follows(spans: seq<Span>, k: nat)
    requires k < |spans|
  {
    var span := spans[k];
    && span.beforeLo < span.beforeHi && span.afterLo < span.afterHi
    && (k == 0 ==> span.beforeLo == 0 && span.afterLo == 0)
    && (k > 0 ==> span.beforeLo == spans[k - 1].beforeHi && span.afterLo == spans[k - 1].afterHi)
  }

  /** The components are consecutive, non-empty intervals that use up the first children of both sides. */
  ghost predicate Tiles(spans: seq<Span>, before: nat, after: nat) {
    && (forall k :: 0 <= k < |spans| ==> Follows(spans, k))
    && before == (if spans == [] then 0 else spans[|spans| - 1].beforeHi)
    && after == (if spans == [] then 0 else spans[|spans| - 1].afterHi)
  }

  ghost predicate EndsAt(span: Span, p: nat, q: nat) {
    span.beforeHi == p && span.afterHi == q
  }

  /** The spans end exactly at the cuts up to p: nothing coarser and nothing finer. */
  ghost predicate FinestUpTo(gb: seq<nat>, ga: seq<nat>, spans: seq<Span>, p: nat) {
    && (forall k :: 0 <= k < |spans| ==> IsCut(gb, ga, spans[k].beforeHi, spans[k].afterHi))
    && forall r, q :: 0 < r <= p && IsCut(gb, ga, r, q) ==>
                        exists k :: 0 <= k < |spans| && EndsAt(spans[k], r, q)
  }

  ghost predicate OwnsGroups(gb: seq<nat>, span: Span) {
    && span.beforeLo <= span.beforeHi <= |gb|
    && Members(span.groups) == Met(gb, span.beforeLo, span.beforeHi)
    && forall i, j :: 0 <= i < j < |span.groups| ==> span.groups[i] != span.groups[j]
  }

  lemma OneMorePosition(s: seq<nat>, position: nat, h: nat)
    requires position < |s|
    ensures |PositionsOf(s[..position + 1], {h})| ==
            |PositionsOf(s[..position], {h})| + (if s[position] == h then 1 else 0)
  {
    var fewer, more := PositionsOf(s[..position], {h}), PositionsOf(s[..position + 1], {h});
    if s[position] == h {
      assert more == fewer + {position};
    } else {
      assert more == fewer;
    }
  }

  lemma NoPositions(s: seq<nat>)
    ensures forall g: nat :: |PositionsOf(s[..0], {g})| == 0
  {
    assert forall g: nat :: PositionsOf(s[..0], {g}) == {};
  }

  lemma OneMoreLast(s: seq<nat>, position: nat, h: nat, k: nat)
    requires position < |s|
    ensures IsLast(s[..position + 1], s[position], position)
    ensures h in s[..position + 1] ==> h == s[position] || h in s[..position]
    ensures h != s[position] && IsLast(s[..position], h, k) ==> IsLast(s[..position + 1], h, k)
  {
  }

  /** The last position of every group, and how many positions it has. */
  method LastPositions(s: seq<nat>, n: nat) returns (lasts: seq<nat>, sizes: seq<nat>)
    requires forall i :: 0 <= i < |s| ==> s[i] < n
    ensures |lasts| == n && |sizes| == n
    ensures forall g :: 0 <= g < n && g in s ==> IsLast(s, g, lasts[g])
    ensures forall g :: 0 <= g < n ==> sizes[g] == |PositionsOf(s, {g})|
  {
    hide IsLast, PositionsOf;
    var last := new nat[n](_ => 0);
    var counts := new nat[n](_ => 0);
    NoPositions(s);
    for position := 0 to |s|
      invariant forall g :: 0 <= g < n && g in s[..position] ==> IsLast(s[..position], g, last[g])
      invariant forall g :: 0 <= g < n ==> counts[g] == |PositionsOf(s[..position], {g})|
    {
      var g := s[position];
      forall h: nat | h < n
        ensures |PositionsOf(s[..position + 1], {h})| == |PositionsOf(s[..position], {h})| + (if h == g then 1 else 0)
      {
        OneMorePosition(s, position, h);
      }
      forall h: nat | h < n && h in s[..position + 1] && h != g
        ensures h in s[..position] && IsLast(s[..position + 1], h, last[h])
      {
        OneMoreLast(s, position, h, last[h]);
      }
      OneMoreLast(s, position, g, position);
      last[g] := position;
      counts[g] := counts[g] + 1;
    }
    assert s[..|s|] == s;
    lasts, sizes := last[..], counts[..];
  }

  // ----- what the sweep keeps

  /** The closed components tile a cut prefix and end at every cut so far; the open one starts there. */
  ghost predicate Progress(gb: seq<nat>, ga: seq<nat>, position: nat, spans: seq<Span>, start: nat, afterStart: nat,
                           groups: seq<nat>)
  {
    && start <= position <= |gb| && IsCut(gb, ga, start, afterStart)
    && Tiles(spans, start, afterStart)
    && FinestUpTo(gb, ga, spans, position)
    && (forall k :: 0 <= k < |spans| ==> OwnsGroups(gb, spans[k]))
    && OwnsGroups(gb, Span(start, position, 0, 0, groups))
  }

  lemma CountGroup(gb: seq<nat>, ga: seq<nat>, position: nat, seen: set<nat>, beforeLast: nat, afterLast: nat,
                   afterCount: nat, groupBeforeLast: nat, groupAfterLast: nat)
    requires Counted(gb, ga, position, seen, beforeLast, afterLast, afterCount) && position < |gb|
    requires gb[position] !in seen && IsLast(gb, gb[position], groupBeforeLast) &&
             IsLast(ga, gb[position], groupAfterLast)
    ensures Counted(gb, ga, position + 1, seen + {gb[position]},
                    if beforeLast < groupBeforeLast then groupBeforeLast else beforeLast,
                    if afterLast < groupAfterLast then groupAfterLast else afterLast,
                    afterCount + |PositionsOf(ga, {gb[position]})|)
  {
    var g := gb[position];
    MetOneMore(gb, 0, position);
    LastOfUnion(gb, seen, g, beforeLast, groupBeforeLast);
    LastOfUnion(ga, seen, g, afterLast, groupAfterLast);
    var met, own := PositionsOf(ga, seen), PositionsOf(ga, {g});
    assert PositionsOf(ga, seen + {g}) == met + own && met !! own;
  }

  lemma CountAgain(gb: seq<nat>, ga: seq<nat>, position: nat, seen: set<nat>, beforeLast: nat, afterLast: nat,
                   afterCount: nat)
    requires Counted(gb, ga, position, seen, beforeLast, afterLast, afterCount) && position < |gb|
    requires gb[position] in seen
    ensures Counted(gb, ga, position + 1, seen, beforeLast, afterLast, afterCount)
  {
    MetOneMore(gb, 0, position);
    assert seen + {gb[position]} == seen;
  }

  /** Reading one more child of a group the open component already holds, or one more new group. */
  lemma OpenComponentGrows(gb: seq<nat>, ga: seq<nat>, n: nat, position: nat, spans: seq<Span>, start: nat,
                           afterStart: nat, groups: seq<nat>)
    requires TwoSided(gb, ga, n) && position < |gb|
    requires Progress(gb, ga, position, spans, start, afterStart, groups)
    ensures gb[position] in Met(gb, 0, position) ==> OwnsGroups(gb, Span(start, position + 1, 0, 0, groups))
    ensures gb[position] !in Met(gb, 0, position) ==>
              OwnsGroups(gb, Span(start, position + 1, 0, 0, groups + [gb[position]]))
  {
    var g := gb[position];
    MetOneMore(gb, start, position);
    if g in Met(gb, 0, position) {
      SeenInComponent(gb, ga, start, afterStart, position, n);
    } else {
      assert g !in Members(groups);
      assert Members(groups + [g]) == Members(groups) + {g};
    }
  }

  lemma CloseComponent(gb: seq<nat>, ga: seq<nat>, n: nat, position: nat, spans: seq<Span>, start: nat,
                       afterStart: nat, open: seq<nat>, groups: seq<nat>, end: nat, afterEnd: nat)
    requires TwoSided(gb, ga, n) && position < |gb| && end == position + 1
    requires Progress(gb, ga, position, spans, start, afterStart, open)
    requires OwnsGroups(gb, Span(start, end, 0, 0, groups))
    requires IsCut(gb, ga, end, afterEnd) && forall q :: IsCut(gb, ga, end, q) ==> q == afterEnd
    ensures Progress(gb, ga, end, spans + [Span(start, end, afterStart, afterEnd, groups)], end, afterEnd, [])
  {
    var closed := spans + [Span(start, end, afterStart, afterEnd, groups)];
    AfterAdvances(gb, ga, n, start, afterStart, position, afterEnd);
    forall k | 0 <= k < |closed| ensures Follows(closed, k) && OwnsGroups(gb, closed[k]) {
      if k < |spans| {
        assert Follows(spans, k) && closed[k] == spans[k];
      }
    }
    FinestExtends(gb, ga, spans, closed[|spans|], position, end, afterEnd);
  }

  lemma FinestExtends(gb: seq<nat>, ga: seq<nat>, spans: seq<Span>, span: Span, position: nat, end: nat, afterEnd: nat)
    requires FinestUpTo(gb, ga, spans, position) && end == position + 1
    requires IsCut(gb, ga, end, afterEnd) && forall q :: IsCut(gb, ga, end, q) ==> q == afterEnd
    requires EndsAt(span, end, afterEnd)
    ensures FinestUpTo(gb, ga, spans + [span], end)
  {
    var closed := spans + [span];
    assert EndsAt(closed[|spans|], end, afterEnd);
    forall r, q | 0 < r <= end && IsCut(gb, ga, r, q) ensures exists k :: 0 <= k < |closed| && EndsAt(closed[k], r, q) {
      if r <= position {
        var k :| 0 <= k < |spans| && EndsAt(spans[k], r, q);
        assert EndsAt(closed[k], r, q);
      }
    }
  }

  lemma KeepOpen(gb: seq<nat>, ga: seq<nat>, position: nat, spans: seq<Span>, start: nat, afterStart: nat,
                 groups: seq<nat>, end: nat, grown: seq<nat>)
    requires Progress(gb, ga, position, spans, start, afterStart, groups) && end == position + 1 <= |gb|
    requires OwnsGroups(gb, Span(start, end, 0, 0, grown))
    requires forall q :: !IsCut(gb, ga, end, q)
    ensures Progress(gb, ga, end, spans, start, afterStart, grown)
  {
  }

  lemma {:induction false} EndsAtLast(gb: seq<nat>, ga: seq<nat>, spans: seq<Span>, start: nat, afterStart: nat)
    requires Tiles(spans, start, afterStart) && start <= |gb| && afterStart <= |ga|
    requires exists k :: 0 <= k < |spans| && EndsAt(spans[k], |gb|, |ga|)
    ensures start == |gb| && afterStart == |ga|
  {
    var k :| 0 <= k < |spans| && EndsAt(spans[k], |gb|, |ga|);
    assert Follows(spans, |spans| - 1);
    if k + 1 < |spans| {
      SpansOrdered(spans, start, afterStart, k, |spans| - 1);
    }
  }

  lemma SweepDone(gb: seq<nat>, ga: seq<nat>, n: nat, spans: seq<Span>, start: nat, afterStart: nat, groups: seq<nat>)
    requires TwoSided(gb, ga, n) && |gb| > 0
    requires Progress(gb, ga, |gb|, spans, start, afterStart, groups)
    ensures start == |gb| && afterStart == |ga|
    ensures Tiles(spans, |gb|, |ga|) && FinestUpTo(gb, ga, spans, |gb|)
    ensures forall k :: 0 <= k < |spans| ==> OwnsGroups(gb, spans[k])
  {
    assert IsCut(gb, ga, |gb|, |ga|);
    EndsAtLast(gb, ga, spans, start, afterStart);
  }

  lemma NothingActive(gb: seq<nat>, ga: seq<nat>, n: nat)
    requires TwoSided(gb, ga, n) && |gb| == 0
    ensures |ga| == 0 && Tiles([], 0, 0) && FinestUpTo(gb, ga, [], 0)
  {
    HasMember(ga);
    assert forall g :: g in ga ==> g in gb;
  }

  lemma HasMember(s: seq<nat>)
    ensures s != [] ==> exists g :: g in s
  {
    if s != [] {
      assert s[0] in s;
    }
  }

  lemma SweepStarts(gb: seq<nat>, ga: seq<nat>)
    ensures Counted(gb, ga, 0, {}, 0, 0, 0) && Progress(gb, ga, 0, [], 0, 0, []) && Met(gb, 0, 0) == {}
  {
    assert PositionsOf(ga, {}) == {};
  }

  /** One sweep over the active before children closes a component as soon as the prefix can be cut. */
  method InteractionSpans(gb: seq<nat>, ga: seq<nat>, n: nat) returns (spans: seq<Span>)
    requires TwoSided(gb, ga, n)
    ensures Tiles(spans, |gb|, |ga|)
    ensures FinestUpTo(gb, ga, spans, |gb|)
    ensures forall k :: 0 <= k < |spans| ==> OwnsGroups(gb, spans[k])
  {
    hide Progress, Counted, IsCut, OwnsGroups, Tiles, FinestUpTo, Met, IsLast, PositionsOf;
    spans := [];
    if |gb| == 0 {
      NothingActive(gb, ga, n);
      return;
    }
    var beforeLast, _ := LastPositions(gb, n);
    var afterLast, afterCounts := LastPositions(ga, n);
    var seen := new bool[n](_ => false);
    var componentGroups: seq<nat> := [];
    var beforeStart: nat, afterStart: nat := 0, 0;
    var beforePrefixLast, afterPrefixLast, afterPrefixCount := 0, 0, 0;
    SweepStarts(gb, ga);

    for position := 0 to |gb|
      invariant forall g :: 0 <= g < n ==> (seen[g] <==> g in Met(gb, 0, position))
      invariant Counted(gb, ga, position, Met(gb, 0, position), beforePrefixLast, afterPrefixLast, afterPrefixCount)
      invariant Progress(gb, ga, position, spans, beforeStart, afterStart, componentGroups)
    {
      var group := gb[position];
      ghost var openGroups := componentGroups;
      MetOneMore(gb, 0, position);
      OpenComponentGrows(gb, ga, n, position, spans, beforeStart, afterStart, openGroups);
      if !seen[group] {
        CountGroup(gb, ga, position, Met(gb, 0, position), beforePrefixLast, afterPrefixLast, afterPrefixCount,
                   beforeLast[group], afterLast[group]);
        seen[group] := true;
        componentGroups := componentGroups + [group];
        beforePrefixLast := if beforePrefixLast < beforeLast[group] then beforeLast[group] else beforePrefixLast;
        afterPrefixLast := if afterPrefixLast < afterLast[group] then afterLast[group] else afterPrefixLast;
        afterPrefixCount := afterPrefixCount + afterCounts[group];
      } else {
        CountAgain(gb, ga, position, Met(gb, 0, position), beforePrefixLast, afterPrefixLast, afterPrefixCount);
      }
      CutExactly(gb, ga, n, position, position + 1, Met(gb, 0, position + 1), beforePrefixLast, afterPrefixLast,
                 afterPrefixCount);
      if position == beforePrefixLast && afterPrefixCount == afterPrefixLast + 1 {
        CloseComponent(gb, ga, n, position, spans, beforeStart, afterStart, openGroups, componentGroups,
                       position + 1, afterPrefixCount);
        spans := spans + [Span(beforeStart, position + 1, afterStart, afterPrefixCount, componentGroups)];
        componentGroups := [];
        beforeStart, afterStart := position + 1, afterPrefixCount;
      } else {
        KeepOpen(gb, ga, position, spans, beforeStart, afterStart, openGroups, position + 1, componentGroups);
      }
    }
    SweepDone(gb, ga, n, spans, beforeStart, afterStart, componentGroups);
  }

  /** A group met before the current component would have crossed the cut that opened it. */
  lemma SeenInComponent(gb: seq<nat>, ga: seq<nat>, start: nat, afterStart: nat, position: nat, n: nat)
    requires TwoSided(gb, ga, n) && IsCut(gb, ga, start, afterStart) && start <= position < |gb|
    requires gb[position] in Met(gb, 0, position)
    ensures Met(gb, start, position + 1) == Met(gb, start, position)
  {
    var i: nat :| i < position && gb[i] == gb[position];
    var j :| 0 <= j < |ga| && ga[j] == gb[position];
    assert i < start <==> j < afterStart;
    MetOneMore(gb, start, position);
    assert gb[i] in Met(gb, start, position);
  }

  lemma AfterAdvances(gb: seq<nat>, ga: seq<nat>, n: nat, start: nat, afterStart: nat, position: nat, q: nat)
    requires TwoSided(gb, ga, n) && start <= position < |gb|
    requires IsCut(gb, ga, start, afterStart) && IsCut(gb, ga, position + 1, q)
    ensures afterStart < q
  {
    var j :| 0 <= j < |ga| && ga[j] == gb[position];
    assert position < position + 1 <==> j < q;
  }

  // ----- decomposition

  ghost predicate RespectsGroups(gb: seq<nat>, ga: seq<nat>, cells: set<Cell>) {
    forall x :: x in cells ==> x.0 < |gb| && x.1 < |ga| && gb[x.0] == ga[x.1]
  }

  ghost function Block(cells: set<Cell>, span: Span): set<Cell> {
    set x | x in cells && span.beforeLo <= x.0 < span.beforeHi && span.afterLo <= x.1 < span.afterHi
  }

  ghost function Blocks(cells: set<Cell>, spans: seq<Span>): (blocks: seq<set<Cell>>)
    ensures |blocks| == |spans| && forall k :: 0 <= k < |spans| ==> blocks[k] == Block(cells, spans[k])
  {
    seq(|spans|, k requires 0 <= k < |spans| => Block(cells, spans[k]))
  }

  lemma {:induction false} SpansOrdered(spans: seq<Span>, before: nat, after: nat, k: nat, l: nat)
    requires Tiles(spans, before, after) && k < l < |spans|
    ensures spans[k].beforeHi <= spans[l].beforeLo && spans[k].afterHi <= spans[l].afterLo
    decreases l - k
  {
    assert Follows(spans, l);
    if k + 1 < l {
      SpansOrdered(spans, before, after, k, l - 1);
      assert Follows(spans, l - 1);
    }
  }

  lemma TilesPrefix(spans: seq<Span>, before: nat, after: nat, k: nat)
    requires Tiles(spans, before, after) && k < |spans|
    ensures Tiles(spans[..k], spans[k].beforeLo, spans[k].afterLo)
  {
    var rest := spans[..k];
    forall l | 0 <= l < |rest| ensures Follows(rest, l) {
      assert Follows(spans, l);
    }
    assert Follows(spans, k);
  }

  lemma {:induction false} SpanOf(gb: seq<nat>, ga: seq<nat>, spans: seq<Span>, before: nat, after: nat, x: Cell)
    returns (k: nat)
    requires Tiles(spans, before, after) && x.0 < before && before <= |gb|
    requires forall k :: 0 <= k < |spans| ==> IsCut(gb, ga, spans[k].beforeHi, spans[k].afterHi)
    requires x.1 < |ga| && gb[x.0] == ga[x.1]
    ensures k < |spans| && spans[k].beforeLo <= x.0 < spans[k].beforeHi && spans[k].afterLo <= x.1 < spans[k].afterHi
    decreases |spans|
  {
    k := |spans| - 1;
    var span := spans[k];
    assert Follows(spans, k);
    assert IsCut(gb, ga, span.beforeHi, span.afterHi);
    if x.0 < span.beforeLo {
      var rest := spans[..k];
      TilesPrefix(spans, before, after, k);
      k := SpanOf(gb, ga, rest, span.beforeLo, span.afterLo, x);
    } else if k > 0 {
      assert IsCut(gb, ga, spans[k - 1].beforeHi, spans[k - 1].afterHi);
    }
  }

  /** The candidates of the components are all the candidates, and each component lies wholly before the next. */
  lemma SpansSeparate(gb: seq<nat>, ga: seq<nat>, spans: seq<Span>, cells: set<Cell>)
    requires Tiles(spans, |gb|, |ga|) && FinestUpTo(gb, ga, spans, |gb|) && RespectsGroups(gb, ga, cells)
    ensures Separated(Blocks(cells, spans)) && Union(Blocks(cells, spans)) == cells
  {
    hide Tiles, FinestUpTo, RespectsGroups, Separated, Union;
    BlocksPrecede(spans, |gb|, |ga|, cells);
    BlocksCover(gb, ga, spans, cells);
  }

  lemma BlocksPrecede(spans: seq<Span>, before: nat, after: nat, cells: set<Cell>)
    requires Tiles(spans, before, after)
    ensures Separated(Blocks(cells, spans))
  {
    hide Tiles;
    forall k, l | 0 <= k < l < |spans| ensures Precedes(Block(cells, spans[k]), Block(cells, spans[l])) {
      SpansOrdered(spans, before, after, k, l);
    }
  }

  lemma BlocksCover(gb: seq<nat>, ga: seq<nat>, spans: seq<Span>, cells: set<Cell>)
    requires Tiles(spans, |gb|, |ga|) && FinestUpTo(gb, ga, spans, |gb|) && RespectsGroups(gb, ga, cells)
    ensures Union(Blocks(cells, spans)) == cells
  {
    hide Tiles, IsCut;
    var blocks := Blocks(cells, spans);
    forall x | x in cells ensures x in Union(blocks) {
      var k := SpanOf(gb, ga, spans, |gb|, |ga|, x);
      assert x in blocks[k];
    }
    forall x | x in Union(blocks) ensures x in cells {
      var k :| 0 <= k < |blocks| && x in blocks[k];
      assert blocks[k] == Block(cells, spans[k]);
    }
  }
}
