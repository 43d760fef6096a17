/** Undirected connectivity, the reference against which both union-find structures are proved. */
module Connectivity {
  type Edge = (nat, nat)

  ghost predicate Linked(edges: set<Edge>, x: nat, y: nat) {
    (x, y) in edges || (y, x) in edges
  }

  ghost predicate IsPath(edges: set<Edge>, p: seq<nat>) {
    |p| > 0 && forall k :: 0 <= k < |p| - 1 ==> Linked(edges, p[k], p[k + 1])
  }

  ghost predicate Joins(edges: set<Edge>, p: seq<nat>, x: nat, y: nat) {
    IsPath(edges, p) && p[0] == x && p[|p| - 1] == y
  }

  ghost predicate Connected(edges: set<Edge>, x: nat, y: nat) {
    exists p :: Joins(edges, p, x, y)
  }

  lemma ConnectedReflexive(edges: set<Edge>, x: nat)
    ensures Connected(edges, x, x)
  {
    assert Joins(edges, [x], x, x);
  }

  lemma EdgeConnects(edges: set<Edge>, x: nat, y: nat)
    requires Linked(edges, x, y)
    ensures Connected(edges, x, y)
  {
    assert Joins(edges, [x, y], x, y);
  }

  lemma ConnectedSymmetric(edges: set<Edge>, x: nat, y: nat)
    requires Connected(edges, x, y)
    ensures Connected(edges, y, x)
  {
    var p :| Joins(edges, p, x, y);
    var q := seq(|p|, k requires 0 <= k < |p| => p[|p| - 1 - k]);
    forall k | 0 <= k < |q| - 1 ensures Linked(edges, q[k], q[k + 1]) {
      assert Linked(edges, p[|p| - 2 - k], p[|p| - 2 - k + 1]);
    }
    assert Joins(edges, q, y, x);
  }

  lemma ConnectedTransitive(edges: set<Edge>, x: nat, y: nat, z: nat)
    requires Connected(edges, x, y) && Connected(edges, y, z)
    ensures Connected(edges, x, z)
  {
    var p :| Joins(edges, p, x, y);
    var q :| Joins(edges, q, y, z);
    var r := p + q[1..];
    forall k | 0 <= k < |r| - 1 ensures Linked(edges, r[k], r[k + 1]) {
      if k < |p| - 1 {
        assert Linked(edges, p[k], p[k + 1]);
      } else {
        assert Linked(edges, q[k - |p| + 1], q[k - |p| + 2]);
      }
    }
    assert Joins(edges, r, x, z);
  }

  lemma {:induction false} PathStaysIn(edges: set<Edge>, members: set<nat>, p: seq<nat>)
    requires forall u, v: nat :: u in members && Linked(edges, u, v) ==> v in members
    requires IsPath(edges, p) && p[0] in members
    ensures p[|p| - 1] in members
    decreases |p|
  {
    if |p| > 1 {
      PathStaysIn(edges, members, p[..|p| - 1]);
      assert Linked(edges, p[|p| - 2], p[|p| - 2 + 1]);
    }
  }

  /** What no edge leaves, no chain of edges leaves. */
  lemma ConnectedStaysIn(edges: set<Edge>, members: set<nat>, x: nat, y: nat)
    requires forall u, v: nat :: u in members && Linked(edges, u, v) ==> v in members
    requires x in members && Connected(edges, x, y)
    ensures y in members
  {
    var p :| Joins(edges, p, x, y);
    PathStaysIn(edges, members, p);
  }

  lemma ConnectedMonotone(edges: set<Edge>, more: set<Edge>, x: nat, y: nat)
    requires edges <= more && Connected(edges, x, y)
    ensures Connected(more, x, y)
  {
    var p :| Joins(edges, p, x, y);
    forall k | 0 <= k < |p| - 1 ensures Linked(more, p[k], p[k + 1]) {
      assert Linked(edges, p[k], p[k + 1]);
    }
    assert Joins(more, p, x, y);
  }

  /** What connectivity becomes when the edge (a, b) is added. */
  ghost predicate JoinedBy(edges: set<Edge>, a: nat, b: nat, x: nat, y: nat) {
    || Connected(edges, x, y)
    || (Connected(edges, x, a) && Connected(edges, b, y))
    || (Connected(edges, x, b) && Connected(edges, a, y))
  }

  lemma JoinedByStep(edges: set<Edge>, a: nat, b: nat, x: nat, y: nat, z: nat)
    requires JoinedBy(edges, a, b, x, y) && Linked(edges + {(a, b)}, y, z)
    ensures JoinedBy(edges, a, b, x, z)
  {
    if Linked(edges, y, z) {
      EdgeConnects(edges, y, z);
      if Connected(edges, x, y) {
        ConnectedTransitive(edges, x, y, z);
      } else if Connected(edges, x, a) && Connected(edges, b, y) {
        ConnectedTransitive(edges, b, y, z);
      } else {
        ConnectedTransitive(edges, a, y, z);
      }
    } else {
      ConnectedReflexive(edges, z);
    }
  }

  lemma {:induction false} PathJoined(edges: set<Edge>, a: nat, b: nat, p: seq<nat>)
    requires IsPath(edges + {(a, b)}, p)
    ensures JoinedBy(edges, a, b, p[0], p[|p| - 1])
    decreases |p|
  {
    if |p| == 1 {
      ConnectedReflexive(edges, p[0]);
    } else {
      var q := p[..|p| - 1];
      forall k | 0 <= k < |q| - 1 ensures Linked(edges + {(a, b)}, q[k], q[k + 1]) {
        assert Linked(edges + {(a, b)}, p[k], p[k + 1]);
      }
      PathJoined(edges, a, b, q);
      assert Linked(edges + {(a, b)}, p[|p| - 2], p[|p| - 2 + 1]);
      JoinedByStep(edges, a, b, p[0], p[|p| - 2], p[|p| - 1]);
    }
  }

  lemma ConnectedThrough(edges: set<Edge>, x: nat, u: nat, v: nat, y: nat)
    requires Connected(edges, x, u) && Linked(edges, u, v) && Connected(edges, v, y)
    ensures Connected(edges, x, y)
  {
    EdgeConnects(edges, u, v);
    ConnectedTransitive(edges, x, u, v);
    ConnectedTransitive(edges, x, v, y);
  }

  lemma AddEdge(edges: set<Edge>, a: nat, b: nat, x: nat, y: nat)
    ensures Connected(edges + {(a, b)}, x, y) <==> JoinedBy(edges, a, b, x, y)
  {
    var more := edges + {(a, b)};
    if Connected(more, x, y) {
      var p :| Joins(more, p, x, y);
      PathJoined(edges, a, b, p);
    }
    if Connected(edges, x, y) {
      ConnectedMonotone(edges, more, x, y);
    } else if Connected(edges, x, a) && Connected(edges, b, y) {
      ConnectedMonotone(edges, more, x, a);
      ConnectedMonotone(edges, more, b, y);
      ConnectedThrough(more, x, a, b, y);
    } else if Connected(edges, x, b) && Connected(edges, a, y) {
      ConnectedMonotone(edges, more, x, b);
      ConnectedMonotone(edges, more, a, y);
      ConnectedThrough(more, x, b, a, y);
    }
  }

  /** Replacing every edge by a connection loses nothing. */
  lemma ConnectedClosure(edges: set<Edge>, more: set<Edge>, x: nat, y: nat)
    requires forall u, v :: (u, v) in more ==> Connected(edges, u, v)
    requires Connected(more, x, y)
    ensures Connected(edges, x, y)
  {
    var p :| Joins(more, p, x, y);
    PathClosure(edges, more, p);
  }

  lemma {:induction false} PathClosure(edges: set<Edge>, more: set<Edge>, p: seq<nat>)
    requires forall u, v :: (u, v) in more ==> Connected(edges, u, v)
    requires IsPath(more, p)
    ensures Connected(edges, p[0], p[|p| - 1])
    decreases |p|
  {
    if |p| == 1 {
      ConnectedReflexive(edges, p[0]);
    } else {
      var n := |p| - 1;
      assert Linked(more, p[n - 1], p[n - 1 + 1]);
      ConnectedEitherWay(edges, p[n - 1], p[n]);
      forall k | 0 <= k < n - 1 ensures Linked(more, p[..n][k], p[..n][k + 1]) {
        assert Linked(more, p[k], p[k + 1]);
      }
      PathClosure(edges, more, p[..n]);
      ConnectedTransitive(edges, p[0], p[n - 1], p[n]);
    }
  }

  // ----- partitions

  /** The labels split the vertices below |root| into exactly the connected components. */
  ghost predicate Represents(edges: set<Edge>, root: seq<nat>) {
    forall x, y :: 0 <= x < |root| && 0 <= y < |root| ==> (root[x] == root[y] <==> Connected(edges, x, y))
  }

  /** The labels after the classes labelled u and v are given one label. */
  ghost function Merged(root: seq<nat>, u: nat, v: nat, top: nat): (r: seq<nat>)
    ensures |r| == |root|
  {
    seq(|root|, k requires 0 <= k < |root| => if root[k] == u || root[k] == v then top else root[k])
  }

  lemma SingletonsRepresent(n: nat, root: seq<nat>)
    requires |root| == n && forall x :: 0 <= x < n ==> root[x] == x
    ensures Represents({}, root)
  {
    forall x, y | 0 <= x < n && 0 <= y < n ensures root[x] == root[y] <==> Connected({}, x, y) {
      if Connected({}, x, y) {
        var p :| Joins({}, p, x, y);
        assert |p| > 1 ==> Linked({}, p[0], p[0 + 1]);
      }
      ConnectedReflexive({}, x);
    }
  }

  lemma ConnectedEitherWay(edges: set<Edge>, x: nat, y: nat)
    ensures Connected(edges, x, y) <==> Connected(edges, y, x)
  {
    if Connected(edges, x, y) {
      ConnectedSymmetric(edges, x, y);
    }
    if Connected(edges, y, x) {
      ConnectedSymmetric(edges, y, x);
    }
  }

  /** Giving the classes of a and b one label accounts exactly for the new edge (a, b). */
  lemma MergeRepresents(edges: set<Edge>, root: seq<nat>, a: nat, b: nat, top: nat)
    requires Represents(edges, root) && a < |root| && b < |root|
    requires top == root[a] || top == root[b]
    ensures Represents(edges + {(a, b)}, Merged(root, root[a], root[b], top))
  {
    var merged := Merged(root, root[a], root[b], top);
    forall x, y | 0 <= x < |root| && 0 <= y < |root|
      ensures merged[x] == merged[y] <==> Connected(edges + {(a, b)}, x, y)
    {
      AddEdge(edges, a, b, x, y);
    }
  }
}
