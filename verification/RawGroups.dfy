/** Grouping raw oracle relations that share an endpoint, with an array union-find whose roots are smallest indices. */
module RawGroups {
  import opened Wrappers
  import opened Connectivity

  datatype Endpoint = Endpoint(kind: string, start: nat, end: nat)

  datatype Parsed = Mapping(before: Endpoint, after: Endpoint) | InvalidInfo

  datatype Multiplicity = Singleton | Multi

  datatype Assignment = Assignment(id: nat, multiplicity: Multiplicity)

  // ----- what a group is

  predicate Shares(parsed: seq<Parsed>, i: nat, j: nat) {
    && i < |parsed| && j < |parsed| && parsed[i].Mapping? && parsed[j].Mapping?
    && (parsed[i].before == parsed[j].before || parsed[i].after == parsed[j].after)
  }

  ghost function SharedEdges(parsed: seq<Parsed>): set<Edge> {
    set i: nat, j: nat | i < |parsed| && j < |parsed| && Shares(parsed, i, j) :: (i, j)
  }

  /** Two parsed relations are in one group when a chain of shared endpoints links them. */
  ghost predicate SameGroup(parsed: seq<Parsed>, i: nat, j: nat) {
    Connected(SharedEdges(parsed), i, j)
  }

  // ----- the parents array

  ghost predicate Downward(parents: seq<nat>) {
    forall i :: 0 <= i < |parents| ==> parents[i] <= i
  }

  ghost function RootOf(parents: seq<nat>, i: nat): (root: nat)
    requires Downward(parents) && i < |parents|
    ensures root <= i && parents[root] == root
    decreases i
  {
    if parents[i] == i then i else RootOf(parents, parents[i])
  }

  ghost function Roots(parents: seq<nat>): (roots: seq<nat>)
    requires Downward(parents)
    ensures |roots| == |parents|
  {
    seq(|parents|, i requires 0 <= i < |parents| => RootOf(parents, i))
  }

  /** Pointing a node straight at its root changes no root. */
  lemma {:induction false} CompressKeepsRoots(parents: seq<nat>, c: nat, x: nat)
    requires Downward(parents) && c < |parents| && x < |parents|
    ensures Downward(parents[c := RootOf(parents, c)])
    ensures RootOf(parents[c := RootOf(parents, c)], x) == RootOf(parents, x)
    decreases x
  {
    var more := parents[c := RootOf(parents, c)];
    if x == c {
      assert more[RootOf(parents, c)] == RootOf(parents, c);
    } else if parents[x] != x {
      CompressKeepsRoots(parents, c, parents[x]);
    }
  }

  /** Hanging one root below a smaller one gives the smaller root to everything below either. */
  lemma {:induction false} LinkMergesRoots(parents: seq<nat>, high: nat, low: nat, x: nat)
    requires Downward(parents) && low < high < |parents| && x < |parents|
    requires parents[high] == high && parents[low] == low
    ensures Downward(parents[high := low])
    ensures RootOf(parents[high := low], x) == if RootOf(parents, x) == high then low else RootOf(parents, x)
    decreases x
  {
    var more := parents[high := low];
    if x == high {
      assert more[low] == low;
    } else if parents[x] != x {
      LinkMergesRoots(parents, high, low, parents[x]);
    }
  }

  method FindRoot(parents: array<nat>, index: nat) returns (root: nat)
    requires Downward(parents[..]) && index < parents.Length
    modifies parents
    ensures Downward(parents[..]) && Roots(parents[..]) == Roots(old(parents[..]))
    ensures root == Roots(parents[..])[index]
  {
    ghost var start := parents[..];
    root := index;
    while parents[root] != root
      invariant root < parents.Length && parents[..] == start && RootOf(start, root) == RootOf(start, index)
      decreases root
    {
      root := parents[root];
    }
    var current: nat := index;
    while parents[current] != current
      invariant current < parents.Length && Downward(parents[..]) && Roots(parents[..]) == Roots(start)
      invariant RootOf(parents[..], current) == root
      decreases current
    {
      ghost var was := parents[..];
      var next := parents[current];
      forall x: nat | x < |was|
        ensures Downward(was[current := root]) && RootOf(was[current := root], x) == RootOf(was, x)
      {
        CompressKeepsRoots(was, current, x);
      }
      parents[current] := root;
      assert parents[..] == was[current := root];
      assert Roots(parents[..]) == Roots(was);
      current := next;
    }
    assert root == RootOf(start, index) == Roots(start)[index];
  }

  /** Both classes get the smaller of their two roots. */
  method UnionRoots(parents: array<nat>, x: nat, y: nat)
    requires Downward(parents[..]) && x < parents.Length && y < parents.Length
    modifies parents
    ensures Downward(parents[..])
    ensures var roots := Roots(old(parents[..]));
            var low := if roots[x] < roots[y] then roots[x] else roots[y];
            Roots(parents[..]) == Merged(roots, roots[x], roots[y], low)
  {
    var left := FindRoot(parents, x);
    var right := FindRoot(parents, y);
    ghost var was := parents[..];
    if left != right {
      var high: nat, low: nat := if left < right then right else left, if left < right then left else right;
      assert parents[high] == high && parents[low] == low;
      forall i: nat | i < |was|
        ensures Downward(was[high := low])
        ensures RootOf(was[high := low], i) == if RootOf(was, i) == high then low else RootOf(was, i)
      {
        LinkMergesRoots(was, high, low, i);
      }
      parents[high] := low;
      assert parents[..] == was[high := low];
    }
  }

  // ----- owners

  /** The owner of an endpoint is the first relation that has it; everyone else who has it is linked to the owner. */
  ghost predicate OwnersOf(parsed: seq<Parsed>, n: nat, owners: map<Endpoint, nat>, edges: set<Edge>, onBefore: bool) {
    && n <= |parsed|
    && (forall e :: e in owners ==> owners[e] < n && HasEnd(parsed, owners[e], e, onBefore))
    && (forall i: nat, e :: i < n && HasEnd(parsed, i, e, onBefore) ==> e in owners && Connected(edges, i, owners[e]))
  }

  predicate HasEnd(parsed: seq<Parsed>, i: nat, e: Endpoint, onBefore: bool) {
    i < |parsed| && parsed[i].Mapping? && (if onBefore then parsed[i].before else parsed[i].after) == e
  }

  lemma OwnersKept(parsed: seq<Parsed>, n: nat, owners: map<Endpoint, nat>, edges: set<Edge>, more: set<Edge>,
                   onBefore: bool)
    requires OwnersOf(parsed, n, owners, edges, onBefore) && edges <= more
    ensures OwnersOf(parsed, n, owners, more, onBefore)
  {
    forall i: nat, e | i < n && HasEnd(parsed, i, e, onBefore) ensures e in owners && Connected(more, i, owners[e]) {
      ConnectedMonotone(edges, more, i, owners[e]);
    }
  }

  /** The union-find state after the first n relations. */
  ghost predicate Grouped(parsed: seq<Parsed>, parents: seq<nat>, edges: set<Edge>) {
    && Downward(parents) && |parents| == |parsed|
    && Represents(edges, Roots(parents)) && edges <= SharedEdges(parsed)
  }

  lemma NothingGrouped(parsed: seq<Parsed>, parents: seq<nat>)
    requires |parents| == |parsed| && forall i :: 0 <= i < |parents| ==> parents[i] == i
    ensures Grouped(parsed, parents, {})
    ensures OwnersOf(parsed, 0, map[], {}, true) && OwnersOf(parsed, 0, map[], {}, false)
  {
    assert forall i :: 0 <= i < |parents| ==> RootOf(parents, i) == i;
    SingletonsRepresent(|parents|, Roots(parents));
  }

  lemma NextOwner(parsed: seq<Parsed>, n: nat, owners: map<Endpoint, nat>, edges: set<Edge>, onBefore: bool,
                  e: Endpoint)
    requires OwnersOf(parsed, n, owners, edges, onBefore) && HasEnd(parsed, n, e, onBefore)
    ensures e !in owners ==> OwnersOf(parsed, n + 1, owners[e := n], edges, onBefore)
    ensures e in owners ==> OwnersOf(parsed, n + 1, owners, edges + {(n, owners[e])}, onBefore)
    ensures e in owners ==> Shares(parsed, n, owners[e])
  {
    if e in owners {
      var more := edges + {(n, owners[e])};
      EdgeConnects(more, n, owners[e]);
      OwnersKept(parsed, n, owners, edges, more, onBefore);
    } else {
      ConnectedReflexive(edges, n);
      assert forall i: nat :: i < n && HasEnd(parsed, i, e, onBefore) ==> e in owners;
    }
  }

  method UnionWithEndpointOwner(parents: array<nat>, owners: map<Endpoint, nat>, e: Endpoint, index: nat,
                                ghost parsed: seq<Parsed>, ghost edges: set<Edge>, ghost onBefore: bool)
    returns (newOwners: map<Endpoint, nat>, ghost newEdges: set<Edge>)
    requires Grouped(parsed, parents[..], edges) && OwnersOf(parsed, index, owners, edges, onBefore)
    requires HasEnd(parsed, index, e, onBefore)
    modifies parents
    ensures Grouped(parsed, parents[..], newEdges) && OwnersOf(parsed, index + 1, newOwners, newEdges, onBefore)
    ensures edges <= newEdges
  {
    hide Connected, Shares;
    NextOwner(parsed, index, owners, edges, onBefore, e);
    if e in owners {
      ghost var was := parents[..];
      newOwners, newEdges := owners, edges + {(index, owners[e])};
      UnionRoots(parents, index, owners[e]);
      ghost var roots := Roots(was);
      var mine, theirs := roots[index], roots[owners[e]];
      MergeRepresents(edges, roots, index, owners[e], if mine < theirs then mine else theirs);
    } else {
      newOwners, newEdges := owners[e := index], edges;
    }
  }

  lemma SkipOwners(parsed: seq<Parsed>, n: nat, owners: map<Endpoint, nat>, edges: set<Edge>, onBefore: bool)
    requires OwnersOf(parsed, n, owners, edges, onBefore) && n < |parsed| && parsed[n].InvalidInfo?
    ensures OwnersOf(parsed, n + 1, owners, edges, onBefore)
  {
  }

  /** The links through owners connect exactly what shared endpoints connect. */
  lemma OwnersConnectShared(parsed: seq<Parsed>, beforeOwners: map<Endpoint, nat>, afterOwners: map<Endpoint, nat>,
                            edges: set<Edge>, x: nat, y: nat)
    requires OwnersOf(parsed, |parsed|, beforeOwners, edges, true) &&
             OwnersOf(parsed, |parsed|, afterOwners, edges, false)
    requires edges <= SharedEdges(parsed)
    ensures Connected(edges, x, y) <==> SameGroup(parsed, x, y)
  {
    hide Connected;
    forall u, v | (u, v) in SharedEdges(parsed) ensures Connected(edges, u, v) {
      if parsed[u].before == parsed[v].before {
        SharedOwner(parsed, beforeOwners, edges, true, u, v, parsed[u].before);
      } else {
        SharedOwner(parsed, afterOwners, edges, false, u, v, parsed[u].after);
      }
    }
    if Connected(edges, x, y) {
      ConnectedMonotone(edges, SharedEdges(parsed), x, y);
    }
    if SameGroup(parsed, x, y) {
      ConnectedClosure(edges, SharedEdges(parsed), x, y);
    }
  }

  lemma SharedOwner(parsed: seq<Parsed>, owners: map<Endpoint, nat>, edges: set<Edge>, onBefore: bool, u: nat, v: nat,
                    e: Endpoint)
    requires OwnersOf(parsed, |parsed|, owners, edges, onBefore)
    requires HasEnd(parsed, u, e, onBefore) && HasEnd(parsed, v, e, onBefore)
    ensures Connected(edges, u, v)
  {
    ConnectedSymmetric(edges, v, owners[e]);
    ConnectedTransitive(edges, u, owners[e], v);
  }

  // ----- sizes

  /** The parsed relations among the first n that have the root. */
  ghost function Members(parsed: seq<Parsed>, roots: seq<nat>, n: nat, root: nat): set<nat>
    requires n <= |parsed| == |roots|
  {
    set i: nat | i < n && parsed[i].Mapping? && roots[i] == root
  }

  ghost predicate SizesOf(parsed: seq<Parsed>, roots: seq<nat>, n: nat, sizes: map<nat, nat>) {
    && n <= |parsed| == |roots|
    && (forall root :: (root in sizes <==> Members(parsed, roots, n, root) != {}) &&
                       (root in sizes ==> sizes[root] == |Members(parsed, roots, n, root)|))
  }

  lemma NextMember(parsed: seq<Parsed>, roots: seq<nat>, n: nat, root: nat)
    requires n < |parsed| == |roots|
    ensures var before, after := Members(parsed, roots, n, root), Members(parsed, roots, n + 1, root);
            if parsed[n].Mapping? && roots[n] == root then after != {} && |after| == |before| + 1 else after == before
  {
    var before, after := Members(parsed, roots, n, root), Members(parsed, roots, n + 1, root);
    if parsed[n].Mapping? && roots[n] == root {
      assert after == before + {n};
    } else {
      assert after == before;
    }
  }

  lemma CountMember(parsed: seq<Parsed>, roots: seq<nat>, n: nat, sizes: map<nat, nat>)
    requires SizesOf(parsed, roots, n, sizes) && n < |parsed|
    ensures parsed[n].InvalidInfo? ==> SizesOf(parsed, roots, n + 1, sizes)
    ensures parsed[n].Mapping? ==>
              SizesOf(parsed, roots, n + 1, sizes[roots[n] := (if roots[n] in sizes then sizes[roots[n]] else 0) + 1])
  {
    hide Members;
    forall root: nat {
      NextMember(parsed, roots, n, root);
    }
  }

  lemma MoreThanOne(members: set<nat>, i: nat)
    requires i in members
    ensures |members| > 1 <==> exists j :: j in members && j != i
  {
    var rest := members - {i};
    assert members == rest + {i};
    if rest != {} {
      var j :| j in rest;
    }
    assert forall j :: j in members && j != i ==> j in rest;
  }

  // ----- the assignment

  /** Parsed relations share an id exactly when they are in one group; the id is the smallest index of the group; the
      group is Multi exactly when it has a second relation; unparsed records get none. */
  ghost predicate Assigned(parsed: seq<Parsed>, assignments: seq<Option<Assignment>>) {
    && |assignments| == |parsed|
    && (forall i: nat :: i < |parsed| ==> (assignments[i].Some? <==> parsed[i].Mapping?))
    && (forall i: nat :: i < |parsed| && parsed[i].Mapping? ==> GoodAssignment(parsed, i, assignments[i].value))
    && (forall i: nat, j: nat :: i < |parsed| && j < |parsed| && parsed[i].Mapping? && parsed[j].Mapping? ==>
                                   (assignments[i].value.id == assignments[j].value.id <==> SameGroup(parsed, i, j)))
  }

  ghost predicate GoodAssignment(parsed: seq<Parsed>, i: nat, assignment: Assignment) {
    && assignment.id <= i < |parsed| && parsed[assignment.id].Mapping? && SameGroup(parsed, i, assignment.id)
    && (forall j: nat :: j < |parsed| && parsed[j].Mapping? && SameGroup(parsed, i, j) ==> assignment.id <= j)
    && (assignment.multiplicity == Multi <==> exists j: nat :: Companion(parsed, i, j))
  }

  ghost predicate Companion(parsed: seq<Parsed>, i: nat, j: nat) {
    j < |parsed| && j != i && parsed[j].Mapping? && SameGroup(parsed, i, j)
  }

  /** Nothing is connected to a record that did not parse. */
  lemma {:induction false} ConnectedParsed(parsed: seq<Parsed>, p: seq<nat>)
    requires IsPath(SharedEdges(parsed), p) && |p| > 1
    ensures p[|p| - 1] < |parsed| && parsed[p[|p| - 1]].Mapping?
  {
    var n := |p| - 2;
    assert Linked(SharedEdges(parsed), p[n], p[n + 1]);
  }

  lemma RootIsParsed(parsed: seq<Parsed>, i: nat, root: nat)
    requires i < |parsed| && parsed[i].Mapping? && SameGroup(parsed, i, root)
    ensures root < |parsed| && parsed[root].Mapping?
  {
    var p :| Joins(SharedEdges(parsed), p, i, root);
    if |p| > 1 {
      ConnectedParsed(parsed, p);
    }
  }

  lemma RootIsGood(parsed: seq<Parsed>, parents: seq<nat>, sizes: map<nat, nat>, i: nat)
    requires Downward(parents) && |parents| == |parsed|
    requires forall x: nat, y: nat :: x < |parsed| && y < |parsed| ==>
               (Roots(parents)[x] == Roots(parents)[y] <==> SameGroup(parsed, x, y))
    requires SizesOf(parsed, Roots(parents), |parsed|, sizes) && i < |parsed| && parsed[i].Mapping?
    ensures var root := Roots(parents)[i];
            root in sizes && GoodAssignment(parsed, i, Assignment(root, if sizes[root] > 1 then Multi else Singleton))
  {
    hide SameGroup, SharedEdges;
    var roots := Roots(parents);
    var root := roots[i];
    assert roots[root] == root == roots[i];
    RootIsParsed(parsed, i, root);
    var members := Members(parsed, roots, |parsed|, root);
    assert i in members;
    MoreThanOne(members, i);
    forall j: nat ensures Companion(parsed, i, j) <==> j in members && j != i {
    }
  }

  method RawGroupAssignments(parsed: seq<Parsed>) returns (assignments: seq<Option<Assignment>>)
    ensures Assigned(parsed, assignments)
  {
    hide SameGroup, SharedEdges, Represents, OwnersOf, Roots, GoodAssignment, SizesOf, Grouped, Downward;
    var parents := new nat[|parsed|](i => i);
    var beforeOwners: map<Endpoint, nat>, afterOwners: map<Endpoint, nat> := map[], map[];
    ghost var edges: set<Edge> := {};
    NothingGrouped(parsed, parents[..]);
    for n := 0 to |parsed|
      invariant parents.Length == |parsed| && Grouped(parsed, parents[..], edges)
      invariant OwnersOf(parsed, n, beforeOwners, edges, true) && OwnersOf(parsed, n, afterOwners, edges, false)
    {
      if parsed[n].InvalidInfo? {
        SkipOwners(parsed, n, beforeOwners, edges, true);
        SkipOwners(parsed, n, afterOwners, edges, false);
        continue;
      }
      ghost var fewer := edges;
      beforeOwners, edges := UnionWithEndpointOwner(parents, beforeOwners, parsed[n].before, n, parsed, edges, true);
      OwnersKept(parsed, n, afterOwners, fewer, edges, false);
      fewer := edges;
      afterOwners, edges := UnionWithEndpointOwner(parents, afterOwners, parsed[n].after, n, parsed, edges, false);
      OwnersKept(parsed, n + 1, beforeOwners, fewer, edges, true);
    }
    GroupedRoots(parsed, parents[..], edges, beforeOwners, afterOwners);
    ghost var roots := Roots(parents[..]);
    var sizes := map[];
    NoSizes(parsed, roots);
    for n := 0 to |parsed|
      invariant parents.Length == |parsed| && Downward(parents[..]) && Roots(parents[..]) == roots
      invariant SizesOf(parsed, roots, n, sizes)
    {
      CountMember(parsed, roots, n, sizes);
      if parsed[n].Mapping? {
        var root := FindRoot(parents, n);
        sizes := sizes[root := (if root in sizes then sizes[root] else 0) + 1];
      }
    }
    assignments := [];
    for n := 0 to |parsed|
      invariant parents.Length == |parsed| && Downward(parents[..]) && Roots(parents[..]) == roots
      invariant |assignments| == n
      invariant forall i: nat :: i < n ==> (assignments[i].Some? <==> parsed[i].Mapping?)
      invariant forall i: nat :: i < n && parsed[i].Mapping? ==>
                  assignments[i].value.id == roots[i] && GoodAssignment(parsed, i, assignments[i].value)
    {
      if parsed[n].Mapping? {
        RootIsGood(parsed, parents[..], sizes, n);
        var id := FindRoot(parents, n);
        assignments := assignments + [Some(Assignment(id, if sizes[id] > 1 then Multi else Singleton))];
      } else {
        assignments := assignments + [None];
      }
    }
  }

  lemma NoSizes(parsed: seq<Parsed>, roots: seq<nat>)
    requires |parsed| == |roots|
    ensures SizesOf(parsed, roots, 0, map[])
  {
  }

  lemma GroupedRoots(parsed: seq<Parsed>, parents: seq<nat>, edges: set<Edge>, beforeOwners: map<Endpoint, nat>,
                     afterOwners: map<Endpoint, nat>)
    requires Grouped(parsed, parents, edges)
    requires OwnersOf(parsed, |parsed|, beforeOwners, edges, true) &&
             OwnersOf(parsed, |parsed|, afterOwners, edges, false)
    ensures Downward(parents) && |Roots(parents)| == |parsed|
    ensures forall x: nat, y: nat :: x < |parsed| && y < |parsed| ==>
              (Roots(parents)[x] == Roots(parents)[y] <==> SameGroup(parsed, x, y))
  {
    hide SameGroup, OwnersOf, SharedEdges;
    forall x: nat, y: nat | x < |parsed| && y < |parsed|
      ensures Roots(parents)[x] == Roots(parents)[y] <==> SameGroup(parsed, x, y)
    {
      OwnersConnectShared(parsed, beforeOwners, afterOwners, edges, x, y);
    }
  }
}
