/** The disjoint-set forest with union by rank and path compression. */
module DisjointSets {
  import opened Connectivity

  /** The rank counter of the source is one byte wide. */
  newtype u8 = x: int | 0 <= x < 256

  /** The number of vertices is a machine word. */
  const USIZE_LIMIT: nat := 0x1_0000_0000_0000_0000

  function Pow2(n: nat): nat {
    if n == 0 then 1 else 2 * Pow2(n - 1)
  }

  lemma {:induction false} Pow2Monotone(m: nat, n: nat)
    requires m <= n
    ensures Pow2(m) <= Pow2(n)
    decreases n - m
  {
    if m < n {
      Pow2Monotone(m, n - 1);
    }
  }

  lemma Pow2Of64()
    ensures Pow2(64) == USIZE_LIMIT
  {
    assert Pow2(4) == 16;
    Pow2Sum(4, 4);
    Pow2Sum(8, 8);
    Pow2Sum(16, 16);
    Pow2Sum(32, 32);
  }

  lemma {:induction false} Pow2Sum(m: nat, n: nat)
    ensures Pow2(m + n) == Pow2(m) * Pow2(n)
  {
    if m > 0 {
      Pow2Sum(m - 1, n);
    }
  }

  /** A root whose tree has 2^rank members cannot have a rank that overflows a byte. */
  lemma RankFits(rank: nat, members: nat)
    requires Pow2(rank) <= members < USIZE_LIMIT
    ensures rank < 64
  {
    Pow2Of64();
    if rank >= 64 {
      Pow2Monotone(64, rank);
    }
  }

  ghost function Members(root: seq<nat>, r: nat): (m: set<nat>)
  {
    set j | 0 <= j < |root| && root[j] == r
  }

  lemma {:induction false} MembersBounded(root: seq<nat>, r: nat)
    ensures |Members(root, r)| <= |root|
  {
    if root != [] {
      var shorter := root[..|root| - 1];
      MembersBounded(shorter, r);
      assert Members(root, r) - {|root| - 1} == Members(shorter, r);
    }
  }

  lemma MergedMembers(root: seq<nat>, u: nat, v: nat, top: nat)
    requires u != v && (top == u || top == v)
    ensures |Members(Merged(root, u, v, top), top)| == |Members(root, u)| + |Members(root, v)|
    ensures forall r :: r != u && r != v ==> Members(Merged(root, u, v, top), r) == Members(root, r)
  {
    assert Members(Merged(root, u, v, top), top) == Members(root, u) + Members(root, v);
    assert Members(root, u) !! Members(root, v);
  }

  /** Parent links lead, with strictly growing rank, to the root of each class. */
  ghost predicate IsForest(parent: seq<nat>, rank: seq<u8>, root: seq<nat>) {
    && |parent| == |rank| == |root|
    && (forall i :: 0 <= i < |root| ==> root[i] < |root| && root[root[i]] == root[i])
    && (forall i :: 0 <= i < |root| ==> parent[i] < |root| && root[parent[i]] == root[i])
    && (forall i :: 0 <= i < |root| ==> (parent[i] == i <==> root[i] == i))
    && (forall i :: 0 <= i < |root| && parent[i] != i ==> rank[i] < rank[parent[i]])
    && (forall i :: 0 <= i < |root| && root[i] != i ==> rank[i] < rank[root[i]])
  }

  /** A root of rank r has at least 2^r members. */
  ghost predicate WellRanked(rank: seq<u8>, root: seq<nat>) {
    && |rank| == |root| < USIZE_LIMIT
    && forall i :: 0 <= i < |root| && root[i] == i ==> Pow2(rank[i] as nat) <= |Members(root, i)|
  }

  lemma Compressed(parent: seq<nat>, rank: seq<u8>, root: seq<nat>, v: nat)
    requires IsForest(parent, rank, root) && v < |root|
    ensures |parent| == |root| && IsForest(parent[v := root[v]], rank, root)
  {
  }

  /** One step up the tree: either at the root, or closer to the same root with a larger rank. */
  lemma StepUp(parent: seq<nat>, rank: seq<u8>, root: seq<nat>, v: nat)
    requires IsForest(parent, rank, root) && v < |root|
    ensures |parent| == |rank| == |root| && parent[v] < |root| && root[parent[v]] == root[v]
    ensures parent[v] == v ==> root[v] == v
    ensures parent[v] != v ==> rank[v] < rank[parent[v]]
  {
  }

  lemma RootIsRoot(parent: seq<nat>, rank: seq<u8>, root: seq<nat>, v: nat)
    requires IsForest(parent, rank, root) && v < |root|
    ensures |parent| == |rank| == |root| && root[v] < |root| && root[root[v]] == root[v]
  {
  }

  lemma Attached(parent: seq<nat>, rank: seq<u8>, root: seq<nat>, child: nat, top: nat, grown: u8)
    requires IsForest(parent, rank, root) && child < |root| && top < |root| && child != top
    requires root[child] == child && root[top] == top
    requires rank[child] < grown && rank[top] <= grown
    ensures IsForest(parent[child := top], rank[top := grown], Merged(root, child, top, top))
  {
  }

  lemma StillRanked(rank: seq<u8>, root: seq<nat>, child: nat, top: nat, grown: u8)
    requires WellRanked(rank, root) && child < |root| && top < |root| && child != top
    requires root[child] == child && root[top] == top
    requires grown == rank[top] || (grown as int == rank[top] as int + 1 && rank[child] == rank[top])
    ensures WellRanked(rank[top := grown], Merged(root, child, top, top))
  {
    MergedMembers(root, child, top, top);
    if grown != rank[top] {
      assert Pow2(grown as nat) == 2 * Pow2(rank[top] as nat);
    }
  }

  class DisjointSets {
    var parent: seq<nat>
    var rank: seq<u8>
    /** The edges united so far, and the root of every vertex. */
    ghost var edges: set<Edge>
    ghost var root: seq<nat>

    ghost predicate Valid()
      reads this
    {
      IsForest(parent, rank, root) && WellRanked(rank, root) && Represents(edges, root)
    }

    constructor (len: nat)
      requires len < USIZE_LIMIT
      ensures Valid() && |root| == len && edges == {}
    {
      parent := seq(len, i => i);
      rank := seq(len, _ => 0);
      edges := {};
      root := seq(len, i => i);
      new;
      SingletonsRepresent(len, root);
      forall i | 0 <= i < len ensures Pow2(0) <= |Members(root, i)| {
        assert Members(root, i) == {i};
      }
    }

    /** Path compression re-points the vertices on the way at their root and changes no class. */
    method Find(value: nat) returns (r: nat)
      requires Valid() && value < |root|
      modifies this`parent
      ensures Valid() && |parent| == |root|
      ensures r == root[value] && parent[value] == r
      decreases if value < |rank| then 256 - rank[value] as int else 0
    {
      hide WellRanked, Represents, IsForest;
      StepUp(parent, rank, root, value);
      if parent[value] != value {
        var p := Find(parent[value]);
        Compressed(parent, rank, root, value);
        parent := parent[value := p];
      }
      r := parent[value];
    }

    /** Union by rank: the edge joins the two classes and nothing else. */
    method Union(left: nat, right: nat)
      requires Valid() && left < |root| && right < |root|
      modifies this
      ensures Valid() && |root| == old(|root|)
      ensures edges == old(edges) + {(left, right)}
    {
      hide WellRanked, Represents, IsForest;
      var leftRoot := Find(left);
      var rightRoot := Find(right);
      RootIsRoot(parent, rank, root, left);
      RootIsRoot(parent, rank, root, right);
      edges := edges + {(left, right)};
      if leftRoot == rightRoot {
        AlreadyJoined(old(edges), root, left, right);
        return;
      }
      RankFitsRoot(rank, root, leftRoot);
      if rank[leftRoot] < rank[rightRoot] {
        Join(left, right, leftRoot, rightRoot, rank[rightRoot]);
      } else if rank[leftRoot] > rank[rightRoot] {
        Join(left, right, rightRoot, leftRoot, rank[leftRoot]);
      } else {
        Join(left, right, rightRoot, leftRoot, rank[leftRoot] + 1);
      }
    }

    /** Hang one root below the other. */
    method Join(ghost left: nat, ghost right: nat, child: nat, top: nat, grown: u8)
      requires IsForest(parent, rank, root) && WellRanked(rank, root)
      requires child < |root| && top < |root| && child != top && root[child] == child && root[top] == top
      requires rank[child] < grown && rank[top] <= grown
      requires grown == rank[top] || (grown as int == rank[top] as int + 1 && rank[child] == rank[top])
      requires left < |root| && right < |root| && {root[left], root[right]} == {child, top}
      requires exists before :: edges == before + {(left, right)} && Represents(before, root)
      modifies this`parent, this`rank, this`root
      ensures Valid() && |root| == old(|root|)
    {
      hide WellRanked, Represents, IsForest;
      RootIsRoot(parent, rank, root, child);
      ghost var before :| edges == before + {(left, right)} && Represents(before, root);
      Attached(parent, rank, root, child, top, grown);
      StillRanked(rank, root, child, top, grown);
      MergeRepresents(before, root, left, right, top);
      assert Merged(root, root[left], root[right], top) == Merged(root, child, top, top);
      parent := parent[child := top];
      rank := rank[top := grown];
      root := Merged(root, child, top, top);
    }
  }

  lemma AlreadyJoined(edges: set<Edge>, root: seq<nat>, left: nat, right: nat)
    requires Represents(edges, root) && left < |root| && right < |root| && root[left] == root[right]
    ensures Represents(edges + {(left, right)}, root)
  {
    MergeRepresents(edges, root, left, right, root[left]);
    assert Merged(root, root[left], root[right], root[left]) == root;
  }

  lemma RankFitsRoot(rank: seq<u8>, root: seq<nat>, r: nat)
    requires WellRanked(rank, root) && r < |root| && root[r] == r
    ensures (rank[r] as nat) < 64
  {
    MembersBounded(root, r);
    RankFits(rank[r] as nat, |Members(root, r)|);
  }
}
