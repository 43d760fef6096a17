/** Ordered alignments of two child lists.

    A candidate matrix is the set of its true cells (row, column).  An ordered alignment picks cells whose
    rows and columns strictly increase together, so it is a chain of the strict product order.  Everything the
    matcher says about "every" or "some" optimal alignment is said here, on sets of cells of any size. */
module Chains {
  import opened Finite

  type Cell = (nat, nat)

  predicate Before(x: Cell, y: Cell) {
    x.0 < y.0 && x.1 < y.1
  }

  ghost predicate Chain(a: set<Cell>) {
    forall x, y :: x in a && y in a && x != y ==> Before(x, y) || Before(y, x)
  }

  ghost predicate Alignment(cells: set<Cell>, a: set<Cell>) {
    a <= cells && Chain(a)
  }

  ghost predicate Maximum(cells: set<Cell>, a: set<Cell>) {
    Alignment(cells, a) && forall b :: Alignment(cells, b) ==> |b| <= |a|
  }

  /** n is the size of a largest alignment. */
  ghost predicate Optimum(cells: set<Cell>, n: nat) {
    (exists a :: Alignment(cells, a) && |a| == n) && forall b :: Alignment(cells, b) ==> |b| <= n
  }

  ghost predicate InSome(cells: set<Cell>, x: Cell) {
    exists a :: Maximum(cells, a) && x in a
  }

  ghost predicate InEvery(cells: set<Cell>, x: Cell) {
    forall a :: Maximum(cells, a) ==> x in a
  }

  // ----- cardinalities and existence

  lemma {:induction false} Grow(cells: set<Cell>, a: set<Cell>)
    requires Alignment(cells, a)
    ensures exists m :: Maximum(cells, m) && |a| <= |m|
    decreases |cells| - |a|
  {
    SubsetSize(a, cells);
    if !Maximum(cells, a) {
      var b :| Alignment(cells, b) && |b| > |a|;
      SubsetSize(b, cells);
      Grow(cells, b);
    }
  }

  /** Every set of cells has a maximum alignment, and all of them have the optimal size. */
  lemma MaximumExists(cells: set<Cell>) returns (m: set<Cell>)
    ensures Maximum(cells, m) && Optimum(cells, |m|)
  {
    Grow(cells, {});
    m :| Maximum(cells, m);
  }

  lemma OptimumIsMaximumSize(cells: set<Cell>, n: nat, a: set<Cell>)
    requires Optimum(cells, n)
    ensures Maximum(cells, a) <==> Alignment(cells, a) && |a| == n
  {
    var w :| Alignment(cells, w) && |w| == n;
  }

  // ----- decomposition into order-separated blocks

  ghost predicate Precedes(p: set<Cell>, q: set<Cell>) {
    forall x, y :: x in p && y in q ==> Before(x, y)
  }

  lemma JoinAlignments(p: set<Cell>, q: set<Cell>, a: set<Cell>, b: set<Cell>)
    requires Precedes(p, q) && Alignment(p, a) && Alignment(q, b)
    ensures Alignment(p + q, a + b) && |a + b| == |a| + |b|
    ensures (a + b) * p == a && (a + b) * q == b
  {
    forall x | x in p ensures x !in q {
      assert x in q ==> Before(x, x);
    }
    assert a * b == {};
  }

  lemma SplitAlignment(p: set<Cell>, q: set<Cell>, a: set<Cell>)
    requires Precedes(p, q) && Alignment(p + q, a)
    ensures Alignment(p, a * p) && Alignment(q, a * q) && |a| == |a * p| + |a * q|
  {
    JoinAlignments(p, q, a * p, a * q);
    assert a == a * p + a * q;
  }

  /** Choices in two blocks of which one lies wholly before the other do not interact. */
  lemma MaximumSplits(p: set<Cell>, q: set<Cell>, a: set<Cell>)
    requires Precedes(p, q)
    ensures Maximum(p + q, a) <==> a <= p + q && Maximum(p, a * p) && Maximum(q, a * q)
  {
    if Maximum(p + q, a) {
      SplitAlignment(p, q, a);
      forall b | Alignment(p, b) ensures |b| <= |a * p| {
        JoinAlignments(p, q, b, a * q);
      }
      forall b | Alignment(q, b) ensures |b| <= |a * q| {
        JoinAlignments(p, q, a * p, b);
      }
    }
    if a <= p + q && Maximum(p, a * p) && Maximum(q, a * q) {
      JoinAlignments(p, q, a * p, a * q);
      assert a == a * p + a * q;
      forall b | Alignment(p + q, b) ensures |b| <= |a| {
        SplitAlignment(p, q, b);
      }
    }
  }

  ghost function Union(blocks: seq<set<Cell>>): (u: set<Cell>)
    ensures forall x :: x in u <==> exists k :: 0 <= k < |blocks| && x in blocks[k]
  {
    if blocks == [] then {} else blocks[0] + Union(blocks[1..])
  }

  ghost predicate Separated(blocks: seq<set<Cell>>) {
    forall k, l :: 0 <= k < l < |blocks| ==> Precedes(blocks[k], blocks[l])
  }

  lemma SeparatedTail(blocks: seq<set<Cell>>)
    requires Separated(blocks) && blocks != []
    ensures Separated(blocks[1..]) && Precedes(blocks[0], Union(blocks[1..]))
    ensures Union(blocks) == blocks[0] + Union(blocks[1..])
  {
    var rest := blocks[1..];
    forall k, l | 0 <= k < l < |rest| ensures Precedes(rest[k], rest[l]) {
      assert rest[k] == blocks[k + 1] && rest[l] == blocks[l + 1];
    }
    forall x, y | x in blocks[0] && y in Union(rest) ensures Before(x, y) {
      var k :| 0 <= k < |rest| && y in rest[k];
      assert Precedes(blocks[0], blocks[k + 1]);
    }
  }

  /** A set of cells is a maximum alignment of separated blocks iff each block sees a maximum alignment. */
  lemma {:induction false} MaximumDecomposes(blocks: seq<set<Cell>>, a: set<Cell>)
    requires Separated(blocks)
    ensures Maximum(Union(blocks), a) <==>
            a <= Union(blocks) && forall k :: 0 <= k < |blocks| ==> Maximum(blocks[k], a * blocks[k])
    decreases |blocks|
  {
    if blocks == [] {
      assert Maximum({}, {}) by {
        forall b | Alignment({}, b) ensures |b| <= 0 {
          assert b == {};
        }
      }
    } else {
      var rest := blocks[1..];
      SeparatedTail(blocks);
      MaximumSplits(blocks[0], Union(rest), a);
      var r := a * Union(rest);
      MaximumDecomposes(rest, r);
      forall k | 0 <= k < |rest| ensures r * rest[k] == a * blocks[k + 1] {
        assert rest[k] <= Union(rest);
      }
      if forall k :: 0 <= k < |blocks| ==> Maximum(blocks[k], a * blocks[k]) {
        forall k | 0 <= k < |rest| ensures Maximum(rest[k], r * rest[k]) {
          assert Maximum(blocks[k + 1], a * blocks[k + 1]);
        }
      }
      if Maximum(Union(rest), r) {
        forall k | 1 <= k < |blocks| ensures Maximum(blocks[k], a * blocks[k]) {
          assert Maximum(rest[k - 1], r * rest[k - 1]);
        }
      }
    }
  }

  /** Any choice of one maximum alignment per block is a maximum alignment of the whole. */
  lemma {:induction false} ChooseMaxima(blocks: seq<set<Cell>>, k: nat, m: set<Cell>) returns (a: set<Cell>)
    requires Separated(blocks) && k < |blocks| && Maximum(blocks[k], m)
    ensures Maximum(Union(blocks), a) && a * blocks[k] == m
    decreases |blocks|
  {
    var rest := blocks[1..];
    SeparatedTail(blocks);
    if k == 0 {
      var r := MaximumExists(Union(rest));
      JoinAlignments(blocks[0], Union(rest), m, r);
      a := m + r;
      MaximumSplits(blocks[0], Union(rest), a);
    } else {
      var h := MaximumExists(blocks[0]);
      var r := ChooseMaxima(rest, k - 1, m);
      JoinAlignments(blocks[0], Union(rest), h, r);
      a := h + r;
      MaximumSplits(blocks[0], Union(rest), a);
      assert rest[k - 1] == blocks[k] && blocks[k] <= Union(rest);
      assert a * blocks[k] == (a * Union(rest)) * blocks[k];
    }
  }

  /** Decomposition is exact pair by pair: a pair is in every (some) optimum of the whole iff it is in every
      (some) optimum of its own block. */
  lemma PairDecomposes(blocks: seq<set<Cell>>, k: nat, x: Cell)
    requires Separated(blocks) && k < |blocks| && x in blocks[k]
    ensures InEvery(Union(blocks), x) <==> InEvery(blocks[k], x)
    ensures InSome(Union(blocks), x) <==> InSome(blocks[k], x)
  {
    forall a | Maximum(Union(blocks), a) ensures Maximum(blocks[k], a * blocks[k]) {
      MaximumDecomposes(blocks, a);
    }
    forall m | Maximum(blocks[k], m) ensures exists a :: Maximum(Union(blocks), a) && a * blocks[k] == m {
      var a := ChooseMaxima(blocks, k, m);
    }
    if InEvery(Union(blocks), x) {
      forall m | Maximum(blocks[k], m) ensures x in m {
        var a :| Maximum(Union(blocks), a) && a * blocks[k] == m;
      }
    }
    if InEvery(blocks[k], x) {
      forall a | Maximum(Union(blocks), a) ensures x in a {
        assert x in a * blocks[k];
      }
    }
    if InSome(Union(blocks), x) {
      var a :| Maximum(Union(blocks), a) && x in a;
      assert x in a * blocks[k];
    }
    if InSome(blocks[k], x) {
      var m :| Maximum(blocks[k], m) && x in m;
      var a :| Maximum(Union(blocks), a) && a * blocks[k] == m;
    }
  }

  function Sum(ns: seq<nat>): nat {
    if ns == [] then 0 else ns[0] + Sum(ns[1..])
  }

  lemma JoinBound(p: set<Cell>, q: set<Cell>, best: nat, other: nat, c: set<Cell>)
    requires Precedes(p, q) && Optimum(p, best) && Optimum(q, other) && Alignment(p + q, c)
    ensures |c| <= best + other
  {
    hide Alignment, Precedes;
    SplitAlignment(p, q, c);
  }

  lemma OptimumJoins(p: set<Cell>, q: set<Cell>, best: nat, other: nat)
    requires Precedes(p, q) && Optimum(p, best) && Optimum(q, other)
    ensures Optimum(p + q, best + other)
  {
    hide Alignment, Precedes;
    assert exists c :: Alignment(p + q, c) && |c| == best + other by {
      var a :| Alignment(p, a) && |a| == best;
      var b :| Alignment(q, b) && |b| == other;
      JoinAlignments(p, q, a, b);
    }
    forall c | Alignment(p + q, c) ensures |c| <= best + other {
      JoinBound(p, q, best, other, c);
    }
  }

  lemma NothingOptimal()
    ensures Optimum({}, 0)
  {
    assert Alignment({}, {});
  }

  /** The optimum of separated blocks is the sum of the block optima. */
  lemma {:induction false} OptimumDecomposes(blocks: seq<set<Cell>>, optima: seq<nat>)
    requires Separated(blocks) && |optima| == |blocks|
    requires forall k :: 0 <= k < |blocks| ==> Optimum(blocks[k], optima[k])
    ensures Optimum(Union(blocks), Sum(optima))
    decreases |blocks|
  {
    if blocks == [] {
      NothingOptimal();
    } else {
      SeparatedTail(blocks);
      hide Optimum, Separated, Precedes;
      OptimumDecomposes(blocks[1..], optima[1..]);
      OptimumJoins(blocks[0], Union(blocks[1..]), optima[0], Sum(optima[1..]));
    }
  }

  // ----- the residual constraint

  ghost function Forced(cells: set<Cell>): set<Cell> {
    set x | x in cells && InEvery(cells, x)
  }

  ghost function Possible(cells: set<Cell>): set<Cell> {
    set x | x in cells && InSome(cells, x) && !InEvery(cells, x)
  }

  /** A choice that satisfies the coupled constraint: strictly ordered, of the required size. */
  ghost predicate Resolution(possible: set<Cell>, required: nat, r: set<Cell>) {
    r <= possible && Chain(r) && |r| == required
  }

  lemma MaximumHoldsForced(cells: set<Cell>, a: set<Cell>)
    requires Maximum(cells, a)
    ensures Forced(cells) <= a && a - Forced(cells) <= Possible(cells)
    ensures |a| == |Forced(cells)| + |a - Forced(cells)|
  {
    forall x | x in a ensures InSome(cells, x) {
    }
    assert a == Forced(cells) + (a - Forced(cells));
  }

  /** Joining any resolution to the forced pairs keeps the order: a possible pair shares an optimum with
      every forced pair. */
  lemma ResolutionJoinsForced(cells: set<Cell>, r: set<Cell>)
    requires r <= Possible(cells) && Chain(r)
    ensures Alignment(cells, r + Forced(cells)) && |r + Forced(cells)| == |r| + |Forced(cells)|
  {
    var f := Forced(cells);
    assert r * f == {};
    assert r + f <= cells;
    ForcedIsChain(cells);
    hide InSome, InEvery, Before, Forced, Possible, Chain;
    forall x, y | x in r && y in f ensures Before(x, y) || Before(y, x) {
      PossibleBesideForced(cells, x, y);
    }
    ChainsJoin(r, f);
  }

  lemma ForcedIsChain(cells: set<Cell>)
    ensures Chain(Forced(cells))
  {
    var m := MaximumExists(cells);
    MaximumHoldsForced(cells, m);
  }

  lemma ChainsJoin(a: set<Cell>, b: set<Cell>)
    requires Chain(a) && Chain(b) && forall x, y :: x in a && y in b ==> Before(x, y) || Before(y, x)
    ensures Chain(a + b)
  {
  }

  lemma PossibleBesideForced(cells: set<Cell>, x: Cell, y: Cell)
    requires x in Possible(cells) && y in Forced(cells)
    ensures Before(x, y) || Before(y, x)
  {
    var a :| Maximum(cells, a) && x in a;
    assert y in a && x != y;
  }

  /** The residual encoding is exact: the resolutions of the constraint, each joined with the forced pairs,
      are precisely the maximum alignments. */
  lemma ResidualExact(cells: set<Cell>, optimum: nat, r: set<Cell>)
    requires Optimum(cells, optimum)
    ensures |Forced(cells)| <= optimum
    ensures Resolution(Possible(cells), optimum - |Forced(cells)|, r) <==>
            r !! Forced(cells) && Maximum(cells, r + Forced(cells))
  {
    var f := Forced(cells);
    var m := MaximumExists(cells);
    OptimumIsMaximumSize(cells, optimum, m);
    MaximumHoldsForced(cells, m);
    OptimumIsMaximumSize(cells, optimum, r + f);
    if Resolution(Possible(cells), optimum - |f|, r) {
      ResolutionJoinsForced(cells, r);
    }
    if r !! f && Maximum(cells, r + f) {
      MaximumHoldsForced(cells, r + f);
      assert (r + f) - f == r;
    }
  }

  /** Conversely every maximum alignment is the forced pairs plus one resolution. */
  lemma MaximumIsResolution(cells: set<Cell>, optimum: nat, a: set<Cell>)
    requires Optimum(cells, optimum) && Maximum(cells, a)
    ensures |Forced(cells)| <= optimum
    ensures a == Forced(cells) + (a - Forced(cells))
    ensures Resolution(Possible(cells), optimum - |Forced(cells)|, a - Forced(cells))
  {
    MaximumHoldsForced(cells, a);
    OptimumIsMaximumSize(cells, optimum, a);
  }

  /** A non-empty residual always leaves a real choice. */
  lemma ResidualLeavesChoice(cells: set<Cell>, optimum: nat)
    requires Optimum(cells, optimum) && Possible(cells) != {}
    ensures |Forced(cells)| < optimum < |Forced(cells)| + |Possible(cells)|
  {
    var f, p := Forced(cells), Possible(cells);
    var x :| x in p;
    var a :| Maximum(cells, a) && x in a;
    MaximumIsResolution(cells, optimum, a);
    assert x in a - f;
    var b :| Maximum(cells, b) && x !in b;
    MaximumIsResolution(cells, optimum, b);
    SubsetSize(b - f, p - {x});
  }

  // ----- renumbering rows and columns

  ghost predicate StrictlyIncreasing(s: seq<nat>) {
    forall i, j :: 0 <= i < j < |s| ==> s[i] < s[j]
  }

  ghost predicate InRange(rows: seq<nat>, cols: seq<nat>, a: set<Cell>) {
    forall x :: x in a ==> x.0 < |rows| && x.1 < |cols|
  }

  /** The cells of a sub-matrix, put back at the rows and columns they were taken from. */
  ghost function Image(rows: seq<nat>, cols: seq<nat>, a: set<Cell>): set<Cell>
    requires InRange(rows, cols, a)
  {
    set x | x in a :: (rows[x.0], cols[x.1])
  }

  lemma {:induction false} ImageSize(rows: seq<nat>, cols: seq<nat>, a: set<Cell>)
    requires StrictlyIncreasing(rows) && StrictlyIncreasing(cols) && InRange(rows, cols, a)
    ensures |Image(rows, cols, a)| == |a|
    decreases |a|
  {
    if a != {} {
      var x :| x in a;
      var y: Cell := (rows[x.0], cols[x.1]);
      var rest := a - {x};
      ImageSize(rows, cols, rest);
      forall z | z in rest ensures rows[z.0] != rows[x.0] || cols[z.1] != cols[x.1] {
        assert z.0 != x.0 || z.1 != x.1;
      }
      assert y !in Image(rows, cols, rest);
      assert Image(rows, cols, a) == Image(rows, cols, rest) + {y};
    }
  }

  lemma ImageChain(rows: seq<nat>, cols: seq<nat>, a: set<Cell>)
    requires StrictlyIncreasing(rows) && StrictlyIncreasing(cols) && InRange(rows, cols, a)
    ensures Chain(a) <==> Chain(Image(rows, cols, a))
  {
    if Chain(Image(rows, cols, a)) {
      forall x, y | x in a && y in a && x != y ensures Before(x, y) || Before(y, x) {
        var u: Cell, v: Cell := (rows[x.0], cols[x.1]), (rows[y.0], cols[y.1]);
        assert u in Image(rows, cols, a) && v in Image(rows, cols, a) && u != v;
      }
    }
  }

  lemma AlignmentsComeFromImage(rows: seq<nat>, cols: seq<nat>, cells: set<Cell>, b: set<Cell>)
    returns (a: set<Cell>)
    requires StrictlyIncreasing(rows) && StrictlyIncreasing(cols) && InRange(rows, cols, cells)
    requires Alignment(Image(rows, cols, cells), b)
    ensures Alignment(cells, a) && Image(rows, cols, a) == b && |a| == |b|
  {
    a := set x | x in cells && (rows[x.0], cols[x.1]) in b;
    assert InRange(rows, cols, a);
    assert Image(rows, cols, a) == b;
    ImageChain(rows, cols, a);
    ImageSize(rows, cols, a);
  }

  lemma MaximumOfImage(rows: seq<nat>, cols: seq<nat>, cells: set<Cell>, a: set<Cell>)
    requires StrictlyIncreasing(rows) && StrictlyIncreasing(cols) && InRange(rows, cols, cells) && a <= cells
    ensures Maximum(cells, a) <==> Maximum(Image(rows, cols, cells), Image(rows, cols, a))
  {
    ImageChain(rows, cols, a);
    ImageSize(rows, cols, a);
    if Maximum(cells, a) {
      forall b | Alignment(Image(rows, cols, cells), b) ensures |b| <= |a| {
        var c := AlignmentsComeFromImage(rows, cols, cells, b);
      }
    }
    if Maximum(Image(rows, cols, cells), Image(rows, cols, a)) {
      forall b | Alignment(cells, b) ensures |b| <= |a| {
        ImageChain(rows, cols, b);
        ImageSize(rows, cols, b);
        assert Alignment(Image(rows, cols, cells), Image(rows, cols, b));
      }
    }
  }

  lemma OptimumOfImage(rows: seq<nat>, cols: seq<nat>, cells: set<Cell>, n: nat)
    requires StrictlyIncreasing(rows) && StrictlyIncreasing(cols) && InRange(rows, cols, cells)
    ensures Optimum(cells, n) <==> Optimum(Image(rows, cols, cells), n)
  {
    var m := MaximumExists(cells);
    MaximumOfImage(rows, cols, cells, m);
    ImageSize(rows, cols, m);
    var whole := Image(rows, cols, cells);
    assert Optimum(whole, |m|);
    OptimumUnique(cells, n, |m|);
    OptimumUnique(whole, n, |m|);
  }

  lemma OptimumUnique(cells: set<Cell>, n: nat, k: nat)
    requires Optimum(cells, k)
    ensures Optimum(cells, n) <==> n == k
  {
    var a :| Alignment(cells, a) && |a| == k;
    if Optimum(cells, n) {
      var b :| Alignment(cells, b) && |b| == n;
    }
  }

  /** Being in every (some) optimum does not depend on how the rows and columns are numbered. */
  lemma PairOfImage(rows: seq<nat>, cols: seq<nat>, cells: set<Cell>, x: Cell)
    requires StrictlyIncreasing(rows) && StrictlyIncreasing(cols) && InRange(rows, cols, cells) && x in cells
    ensures InEvery(cells, x) <==> InEvery(Image(rows, cols, cells), (rows[x.0], cols[x.1]))
    ensures InSome(cells, x) <==> InSome(Image(rows, cols, cells), (rows[x.0], cols[x.1]))
  {
    var whole := Image(rows, cols, cells);
    var y: Cell := (rows[x.0], cols[x.1]);
    forall a | a <= cells ensures x in a <==> y in Image(rows, cols, a) {
    }
    forall a | Maximum(cells, a) ensures Maximum(whole, Image(rows, cols, a)) {
      MaximumOfImage(rows, cols, cells, a);
    }
    forall b | Maximum(whole, b) ensures exists a :: a <= cells && Maximum(cells, a) && Image(rows, cols, a) == b {
      var a := AlignmentsComeFromImage(rows, cols, cells, b);
      MaximumOfImage(rows, cols, cells, a);
    }
    if InEvery(cells, x) {
      forall b | Maximum(whole, b) ensures y in b {
        var a :| a <= cells && Maximum(cells, a) && Image(rows, cols, a) == b;
      }
    }
    if InSome(whole, y) {
      var b :| Maximum(whole, b) && y in b;
      var a :| a <= cells && Maximum(cells, a) && Image(rows, cols, a) == b;
    }
  }
}
