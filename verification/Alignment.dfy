/** The maximum-cardinality ordered-alignment dynamic program: score tables, and the two tests that read them. */
module Alignment {
  import opened Wrappers
  import opened Chains

  predicate Rectangular(c: seq<seq<bool>>) {
    forall i :: 0 <= i < |c| ==> |c[i]| == Width(c)
  }

  function Width(c: seq<seq<bool>>): nat {
    if c == [] then 0 else |c[0]|
  }

  /** The true cells of a candidate matrix. */
  ghost function Cells(c: seq<seq<bool>>): set<Cell> {
    set i: nat, j: nat | i < |c| && j < |c[i]| && c[i][j] :: (i, j)
  }

  ghost function Usable(c: seq<seq<bool>>, forbidden: Option<Cell>): set<Cell> {
    if forbidden.None? then Cells(c) else Cells(c) - {forbidden.value}
  }

  /** The cells strictly above and to the left of the corner (i, j). */
  ghost function Below(cells: set<Cell>, i: nat, j: nat): set<Cell> {
    set x | x in cells && x.0 < i && x.1 < j
  }

  /** The cells from the corner (i, j) to the end of the matrix. */
  ghost function From(cells: set<Cell>, i: nat, j: nat): set<Cell> {
    set x | x in cells && i <= x.0 && j <= x.1
  }

  function Max(a: nat, b: nat): nat {
    if a < b then b else a
  }

  /** An alignment of a rectangle uses its last cell, or leaves its last row or its last column unused. */
  lemma LastCell(cells: set<Cell>, i: nat, j: nat, a: set<Cell>)
    requires Alignment(Below(cells, i + 1, j + 1), a)
    ensures (i, j) in a ==> Alignment(Below(cells, i, j), a - {(i, j)})
    ensures (i, j) !in a ==> Alignment(Below(cells, i, j + 1), a) || Alignment(Below(cells, i + 1, j), a)
  {
    if (i, j) in a {
      forall x | x in a - {(i, j)} ensures x in Below(cells, i, j) {
        assert !Before((i, j), x);
      }
    } else if x :| x in a && x.0 == i {
      forall y | y in a ensures y.1 < j {
        if y != x {
          assert Before(y, x);
        }
      }
    }
  }

  lemma FirstCell(cells: set<Cell>, i: nat, j: nat, a: set<Cell>)
    requires Alignment(From(cells, i, j), a)
    ensures (i, j) in a ==> Alignment(From(cells, i + 1, j + 1), a - {(i, j)})
    ensures (i, j) !in a ==> Alignment(From(cells, i + 1, j), a) || Alignment(From(cells, i, j + 1), a)
  {
    if (i, j) in a {
      forall x | x in a - {(i, j)} ensures x in From(cells, i + 1, j + 1) {
        assert !Before(x, (i, j));
      }
    } else if x :| x in a && x.0 == i {
      forall y | y in a ensures y.1 >= j + 1 {
        if y != x {
          assert Before(x, y);
        }
      }
    }
  }

  function Best(skipRow: nat, skipCol: nat, diagonal: nat, usable: bool): nat {
    var best := Max(skipRow, skipCol);
    if usable then Max(best, diagonal + 1) else best
  }

  /** What one step of the recurrence keeps: the optima of the two neighbours and of the diagonal bound every
      alignment of the larger rectangle, and one of the three attains the bound. */
  lemma StepBounds(row: set<Cell>, col: set<Cell>, diagonal: set<Cell>, x: Cell, r: nat, c: nat, d: nat, usable: bool,
                   b: set<Cell>)
    requires Optimum(row, r) && Optimum(col, c) && Optimum(diagonal, d)
    requires if x in b then usable && Alignment(diagonal, b - {x}) else Alignment(row, b) || Alignment(col, b)
    ensures |b| <= Best(r, c, d, usable)
  {
    if x in b {
      assert |b - {x}| == |b| - 1;
    }
  }

  lemma PrefixStepAttained(cells: set<Cell>, i: nat, j: nat, r: nat, c: nat, d: nat) returns (a: set<Cell>)
    requires Optimum(Below(cells, i, j + 1), r)
    requires Optimum(Below(cells, i + 1, j), c)
    requires Optimum(Below(cells, i, j), d)
    ensures Alignment(Below(cells, i + 1, j + 1), a) && |a| == Best(r, c, d, (i, j) in cells)
  {
    var best := Best(r, c, d, (i, j) in cells);
    if best == r {
      a :| Alignment(Below(cells, i, j + 1), a) && |a| == r;
    } else if best == c {
      a :| Alignment(Below(cells, i + 1, j), a) && |a| == c;
    } else {
      var w :| Alignment(Below(cells, i, j), w) && |w| == d;
      JoinAlignments(Below(cells, i, j), {(i, j)}, w, {(i, j)});
      a := w + {(i, j)};
    }
  }

  lemma FromNests(cells: set<Cell>, i: nat, j: nat)
    ensures From(cells, i + 1, j) <= From(cells, i, j) && From(cells, i, j + 1) <= From(cells, i, j)
    ensures From(cells, i + 1, j + 1) <= From(cells, i, j)
    ensures (i, j) in cells ==> (i, j) in From(cells, i, j)
    ensures Precedes({(i, j)}, From(cells, i + 1, j + 1))
  {
  }

  lemma SingleCell(x: Cell)
    ensures Alignment({x}, {x})
  {
  }

  lemma SuffixStepAttained(cells: set<Cell>, i: nat, j: nat, r: nat, c: nat, d: nat) returns (a: set<Cell>)
    requires Optimum(From(cells, i + 1, j), r)
    requires Optimum(From(cells, i, j + 1), c)
    requires Optimum(From(cells, i + 1, j + 1), d)
    ensures Alignment(From(cells, i, j), a) && |a| == Best(r, c, d, (i, j) in cells)
  {
    var best := Best(r, c, d, (i, j) in cells);
    FromNests(cells, i, j);
    if best == r {
      a :| Alignment(From(cells, i + 1, j), a) && |a| == r;
    } else if best == c {
      a :| Alignment(From(cells, i, j + 1), a) && |a| == c;
    } else {
      var w :| Alignment(From(cells, i + 1, j + 1), w) && |w| == d;
      var x: Cell := (i, j);
      hide Chain, From;
      assert Alignment({x}, {x}) by {
        SingleCell(x);
      }
      JoinAlignments({x}, From(cells, i + 1, j + 1), {x}, w);
      a := {x} + w;
    }
  }

  lemma PrefixCell(cells: set<Cell>, i: nat, j: nat, r: nat, c: nat, d: nat)
    requires Optimum(Below(cells, i, j + 1), r)
    requires Optimum(Below(cells, i + 1, j), c)
    requires Optimum(Below(cells, i, j), d)
    ensures Optimum(Below(cells, i + 1, j + 1), Best(r, c, d, (i, j) in cells))
  {
    var w := PrefixStepAttained(cells, i, j, r, c, d);
    forall b | Alignment(Below(cells, i + 1, j + 1), b) ensures |b| <= Best(r, c, d, (i, j) in cells) {
      LastCell(cells, i, j, b);
      StepBounds(Below(cells, i, j + 1), Below(cells, i + 1, j), Below(cells, i, j), (i, j), r, c, d,
                 (i, j) in cells, b);
    }
  }

  lemma SuffixCell(cells: set<Cell>, i: nat, j: nat, r: nat, c: nat, d: nat)
    requires Optimum(From(cells, i + 1, j), r)
    requires Optimum(From(cells, i, j + 1), c)
    requires Optimum(From(cells, i + 1, j + 1), d)
    ensures Optimum(From(cells, i, j), Best(r, c, d, (i, j) in cells))
  {
    var w := SuffixStepAttained(cells, i, j, r, c, d);
    forall b | Alignment(From(cells, i, j), b) ensures |b| <= Best(r, c, d, (i, j) in cells) {
      FirstCell(cells, i, j, b);
      StepBounds(From(cells, i + 1, j), From(cells, i, j + 1), From(cells, i + 1, j + 1), (i, j), r, c, d,
                 (i, j) in cells, b);
    }
  }

  // ----- the tables, as the recurrences that fill them

  /** The matrix with the forbidden pair, if any, cleared. */
  function Masked(c: seq<seq<bool>>, forbidden: Option<Cell>): (m: seq<seq<bool>>)
    requires Rectangular(c)
    ensures Rectangular(m) && |m| == |c| && Width(m) == Width(c)
    ensures forall i, j :: 0 <= i < |c| && 0 <= j < Width(c) ==>
                             m[i][j] == (c[i][j] && forbidden != Some((i, j)))
    ensures Cells(m) == Usable(c, forbidden)
  {
    if forbidden.Some? && forbidden.value.0 < |c| && forbidden.value.1 < Width(c) then
      var (i, j) := forbidden.value;
      c[i := c[i][j := false]]
    else
      c
  }

  function PrefixScore(c: seq<seq<bool>>, i: nat, j: nat): nat
    requires Rectangular(c) && i <= |c| && j <= Width(c)
    decreases i, j
  {
    if i == 0 || j == 0 then 0
    else
      Best(PrefixScore(c, i - 1, j), PrefixScore(c, i, j - 1), PrefixScore(c, i - 1, j - 1), c[i - 1][j - 1])
  }

  function SuffixScore(c: seq<seq<bool>>, i: nat, j: nat): nat
    requires Rectangular(c) && i <= |c| && j <= Width(c)
    decreases |c| - i, Width(c) - j
  {
    if i == |c| || j == Width(c) then 0
    else
      Best(SuffixScore(c, i + 1, j), SuffixScore(c, i, j + 1), SuffixScore(c, i + 1, j + 1), c[i][j])
  }

  /** Every prefix cell is the size of a largest alignment of the first i rows and j columns. */
  lemma {:induction false} PrefixScoreIsOptimum(c: seq<seq<bool>>, i: nat, j: nat)
    requires Rectangular(c) && i <= |c| && j <= Width(c)
    ensures Optimum(Below(Cells(c), i, j), PrefixScore(c, i, j))
    decreases i, j
  {
    hide Optimum;
    if i == 0 || j == 0 {
      assert Below(Cells(c), i, j) == {};
      NothingOptimal();
    } else {
      var k, l := i - 1, j - 1;
      PrefixScoreIsOptimum(c, k, j);
      PrefixScoreIsOptimum(c, i, l);
      PrefixScoreIsOptimum(c, k, l);
      PrefixCell(Cells(c), k, l, PrefixScore(c, k, j), PrefixScore(c, i, l), PrefixScore(c, k, l));
      assert (k, l) in Cells(c) <==> c[k][l];
    }
  }

  /** Every suffix cell is the size of a largest alignment of the rows from i and the columns from j. */
  lemma {:induction false} SuffixScoreIsOptimum(c: seq<seq<bool>>, i: nat, j: nat)
    requires Rectangular(c) && i <= |c| && j <= Width(c)
    ensures Optimum(From(Cells(c), i, j), SuffixScore(c, i, j))
    decreases |c| - i, Width(c) - j
  {
    hide Optimum;
    if i == |c| || j == Width(c) {
      assert From(Cells(c), i, j) == {};
      NothingOptimal();
    } else {
      SuffixScoreIsOptimum(c, i + 1, j);
      SuffixScoreIsOptimum(c, i, j + 1);
      SuffixScoreIsOptimum(c, i + 1, j + 1);
      SuffixCell(Cells(c), i, j, SuffixScore(c, i + 1, j), SuffixScore(c, i, j + 1), SuffixScore(c, i + 1, j + 1));
    }
  }

  ghost predicate IsPrefixTable(c: seq<seq<bool>>, scores: array2<nat>)
    requires Rectangular(c)
    reads scores
  {
    && scores.Length0 == |c| + 1 && scores.Length1 == Width(c) + 1
    && forall i, j :: 0 <= i <= |c| && 0 <= j <= Width(c) ==> scores[i, j] == PrefixScore(c, i, j)
  }

  ghost predicate IsSuffixTable(c: seq<seq<bool>>, scores: array2<nat>)
    requires Rectangular(c)
    reads scores
  {
    && scores.Length0 == |c| + 1 && scores.Length1 == Width(c) + 1
    && forall i, j :: 0 <= i <= |c| && 0 <= j <= Width(c) ==> scores[i, j] == SuffixScore(c, i, j)
  }

  lemma PrefixEdges(c: seq<seq<bool>>)
    requires Rectangular(c)
    ensures forall k, l :: 0 <= k <= |c| && 0 <= l <= Width(c) && (k == 0 || l == 0) ==> PrefixScore(c, k, l) == 0
  {
  }

  lemma PrefixStep(c: seq<seq<bool>>, i: nat, j: nat)
    requires Rectangular(c) && i < |c| && j < Width(c)
    ensures PrefixScore(c, i + 1, j + 1) ==
            Best(PrefixScore(c, i, j + 1), PrefixScore(c, i + 1, j), PrefixScore(c, i, j), c[i][j])
  {
  }

  lemma SuffixEdges(c: seq<seq<bool>>)
    requires Rectangular(c)
    ensures forall k, l :: 0 <= k <= |c| && 0 <= l <= Width(c) && (k == |c| || l == Width(c)) ==>
                             SuffixScore(c, k, l) == 0
  {
  }

  lemma SuffixStep(c: seq<seq<bool>>, i: nat, j: nat)
    requires Rectangular(c) && i < |c| && j < Width(c)
    ensures SuffixScore(c, i, j) ==
            Best(SuffixScore(c, i + 1, j), SuffixScore(c, i, j + 1), SuffixScore(c, i + 1, j + 1), c[i][j])
  {
  }

  method AlignmentPrefixScores(c: seq<seq<bool>>, forbidden: Option<Cell>) returns (scores: array2<nat>)
    requires Rectangular(c)
    ensures IsPrefixTable(Masked(c, forbidden), scores)
  {
    hide PrefixScore, Masked;
    var n, m := |c|, Width(c);
    ghost var masked := Masked(c, forbidden);
    PrefixEdges(masked);
    scores := new nat[n + 1, m + 1]((_, _) => 0);
    for i := 0 to n
      invariant forall k, l {:trigger scores[k, l]} :: 0 <= k <= i && 0 <= l <= m ==>
                  scores[k, l] == PrefixScore(masked, k, l)
      invariant forall k :: 0 <= k <= n ==> scores[k, 0] == 0
    {
      for j := 0 to m
        invariant forall k, l {:trigger scores[k, l]} :: 0 <= k <= i && 0 <= l <= m ==>
                    scores[k, l] == PrefixScore(masked, k, l)
        invariant forall k :: 0 <= k <= n ==> scores[k, 0] == 0
        invariant forall k, l {:trigger scores[k, l]} :: k == i + 1 && 0 <= l <= j ==>
                    scores[k, l] == PrefixScore(masked, k, l)
      {
        var best := Max(scores[i, j + 1], scores[i + 1, j]);
        if c[i][j] && forbidden != Some((i, j)) {
          best := Max(best, scores[i, j] + 1);
        }
        PrefixStep(masked, i, j);
        scores[i + 1, j + 1] := best;
      }
    }
  }

  method AlignmentSuffixScores(c: seq<seq<bool>>) returns (scores: array2<nat>)
    requires Rectangular(c)
    ensures IsSuffixTable(c, scores)
  {
    hide SuffixScore;
    var n, m := |c|, Width(c);
    SuffixEdges(c);
    scores := new nat[n + 1, m + 1]((_, _) => 0);
    for i := n downto 0
      invariant forall k, l :: i <= k <= n && 0 <= l <= m ==> scores[k, l] == SuffixScore(c, k, l)
      invariant forall k :: 0 <= k <= n ==> scores[k, m] == 0
    {
      for j := m downto 0
        invariant forall k, l :: i < k <= n && 0 <= l <= m ==> scores[k, l] == SuffixScore(c, k, l)
        invariant forall k :: 0 <= k <= n ==> scores[k, m] == 0
        invariant forall k, l :: k == i && j <= l <= m ==> scores[k, l] == SuffixScore(c, k, l)
      {
        var best := Max(scores[i + 1, j], scores[i, j + 1]);
        if c[i][j] {
          best := Max(best, scores[i + 1, j + 1] + 1);
        }
        SuffixStep(c, i, j);
        scores[i, j] := best;
      }
    }
  }

  method AlignmentScore(c: seq<seq<bool>>, forbidden: Option<Cell>) returns (score: nat)
    requires Rectangular(c)
    ensures Optimum(Usable(c, forbidden), score)
  {
    var scores := AlignmentPrefixScores(c, forbidden);
    score := scores[|c|, Width(c)];
    WholeMatrix(Masked(c, forbidden));
  }

  lemma WholeMatrix(c: seq<seq<bool>>)
    requires Rectangular(c)
    ensures Optimum(Cells(c), PrefixScore(c, |c|, Width(c)))
  {
    PrefixScoreIsOptimum(c, |c|, Width(c));
    assert Below(Cells(c), |c|, Width(c)) == Cells(c);
  }

  /** An alignment through x is an alignment before x, x itself, and an alignment after x. */
  lemma AlignmentThrough(cells: set<Cell>, x: Cell, a: set<Cell>)
    requires Alignment(cells, a) && x in a
    ensures var lo, hi := Below(cells, x.0, x.1), From(cells, x.0 + 1, x.1 + 1);
            Alignment(lo, a * lo) && Alignment(hi, a * hi) && |a| == |a * lo| + 1 + |a * hi|
  {
    var lo, hi := Below(cells, x.0, x.1), From(cells, x.0 + 1, x.1 + 1);
    forall y | y in a - {x} ensures y in lo || y in hi {
      assert Before(x, y) || Before(y, x);
    }
    assert a == (a * lo + {x}) + a * hi;
    assert |(a * lo + {x}) + a * hi| == |a * lo + {x}| + |a * hi|;
    assert |a * lo + {x}| == |a * lo| + 1;
  }

  lemma JoinThrough(cells: set<Cell>, x: Cell, p: set<Cell>, s: set<Cell>)
    requires x in cells && Alignment(Below(cells, x.0, x.1), p) && Alignment(From(cells, x.0 + 1, x.1 + 1), s)
    ensures Alignment(cells, p + {x} + s) && |p + {x} + s| == |p| + 1 + |s|
  {
    var lo, hi := Below(cells, x.0, x.1), From(cells, x.0 + 1, x.1 + 1);
    JoinAlignments(lo, {x}, p, {x});
    JoinAlignments(lo + {x}, hi, p + {x}, s);
  }

  /** A pair lies in some optimum iff the best prefix before it, the pair, and the best suffix after it reach
      the optimum together. */
  lemma OccursExactly(cells: set<Cell>, x: Cell, prefix: nat, suffix: nat, optimum: nat)
    requires x in cells
    requires Optimum(Below(cells, x.0, x.1), prefix) && Optimum(From(cells, x.0 + 1, x.1 + 1), suffix)
    requires Optimum(cells, optimum)
    ensures prefix + 1 + suffix == optimum <==> InSome(cells, x)
  {
    var p :| Alignment(Below(cells, x.0, x.1), p) && |p| == prefix;
    var s :| Alignment(From(cells, x.0 + 1, x.1 + 1), s) && |s| == suffix;
    JoinThrough(cells, x, p, s);
    OptimumIsMaximumSize(cells, optimum, p + {x} + s);
    if prefix + 1 + suffix == optimum {
      assert Maximum(cells, p + {x} + s) && x in p + {x} + s;
    }
    if InSome(cells, x) {
      var a :| Maximum(cells, a) && x in a;
      OptimumIsMaximumSize(cells, optimum, a);
      AlignmentThrough(cells, x, a);
    }
  }

  /** Dropping a pair lowers the optimum iff every optimum contains the pair. */
  lemma ForcedExactly(cells: set<Cell>, x: Cell, optimum: nat, without: nat)
    requires Optimum(cells, optimum) && Optimum(cells - {x}, without)
    ensures without <= optimum
    ensures without < optimum <==> InEvery(cells, x)
  {
    var w :| Alignment(cells - {x}, w) && |w| == without;
    OptimumIsMaximumSize(cells, optimum, w);
    if without < optimum {
      forall a | Maximum(cells, a) ensures x in a {
        OptimumIsMaximumSize(cells, optimum, a);
        if x !in a {
          assert Alignment(cells - {x}, a);
        }
      }
    }
  }

  function CandidateOccursInOptimum(c: seq<seq<bool>>, prefix: array2<nat>, suffix: array2<nat>, optimum: nat,
                                    i: nat, j: nat): (occurs: bool)
    requires Rectangular(c) && i < |c| && j < Width(c)
    requires IsPrefixTable(c, prefix) && IsSuffixTable(c, suffix) && Optimum(Cells(c), optimum)
    reads prefix, suffix
    ensures occurs <==> InSome(Cells(c), (i, j))
  {
    assert c[i][j] <==> (i, j) in Cells(c);
    assert c[i][j] ==> (prefix[i, j] + 1 + suffix[i + 1, j + 1] == optimum <==> InSome(Cells(c), (i, j))) by {
      if c[i][j] {
        PrefixScoreIsOptimum(c, i, j);
        SuffixScoreIsOptimum(c, i + 1, j + 1);
        OccursExactly(Cells(c), (i, j), prefix[i, j], suffix[i + 1, j + 1], optimum);
      }
    }
    c[i][j] && prefix[i, j] + 1 + suffix[i + 1, j + 1] == optimum
  }

  method CandidateIsForced(c: seq<seq<bool>>, optimum: nat, i: nat, j: nat, groupIsSingleton: bool)
    returns (forced: bool)
    requires Rectangular(c) && i < |c| && j < Width(c) && Optimum(Cells(c), optimum)
    ensures forced <==> groupIsSingleton && InEvery(Cells(c), (i, j))
  {
    forced := groupIsSingleton;
    if forced {
      var without := AlignmentScore(c, Some((i, j)));
      ForcedExactly(Cells(c), (i, j), optimum, without);
      forced := without < optimum;
    }
  }

  // ----- limits

  const ORDERED_ALIGNMENT_COMPONENT_LIMIT: nat := 64
  const ORDERED_ALIGNMENT_CANDIDATE_SCAN_LIMIT: nat :=
    ORDERED_ALIGNMENT_COMPONENT_LIMIT * ORDERED_ALIGNMENT_COMPONENT_LIMIT * 4

  predicate WithinAlignmentLimit(before: nat, after: nat) {
    before <= ORDERED_ALIGNMENT_COMPONENT_LIMIT && after <= ORDERED_ALIGNMENT_COMPONENT_LIMIT
  }
}
