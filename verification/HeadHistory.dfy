/** Checking that the recorded head transitions form one simple path that ends at the authoritative head. */
module HeadHistory {
  import opened Wrappers
  import opened Finite

  type Commit = string

  type Edge = (Commit, Commit)

  datatype HistoryError = NoAdvance | ConflictingSuccessors | ConflictingPredecessors | Cycle | Disconnected

  // ----- what is accepted

  function Step(p: seq<Commit>, k: nat): Edge
    requires k + 1 < |p|
  {
    (p[k], p[k + 1])
  }

  function PathEdges(p: seq<Commit>): (edges: set<Edge>)
    ensures forall e :: e in edges <==> exists k: nat :: k + 1 < |p| && e == Step(p, k)
  {
    set k: nat | k + 1 < |p| :: Step(p, k)
  }

  ghost predicate Distinct(p: seq<Commit>) {
    forall j, k :: 0 <= j < k < |p| ==> p[j] != p[k]
  }

  /** The edges are those of a walk through different commits that ends at the head. */
  ghost predicate PathTo(edges: set<Edge>, head: Commit, p: seq<Commit>) {
    |p| >= 2 && Distinct(p) && p[|p| - 1] == head && PathEdges(p) == edges
  }

  ghost predicate Accepts(edges: set<Edge>, head: Commit) {
    edges == {} || exists p :: PathTo(edges, head, p)
  }

  ghost function EdgesOf(observations: seq<Edge>): (edges: set<Edge>)
    ensures forall e :: e in edges <==> e in observations
  {
    set e | e in observations
  }

  // ----- simple paths have no loops, forks or joins

  lemma PathIsPlain(edges: set<Edge>, head: Commit, p: seq<Commit>, e: Edge, f: Edge)
    requires PathTo(edges, head, p) && e in edges && f in edges
    ensures e.0 != e.1
    ensures e.0 == f.0 ==> e == f
    ensures e.1 == f.1 ==> e == f
  {
    var j: nat :| j + 1 < |p| && e == Step(p, j);
    var k: nat :| k + 1 < |p| && f == Step(p, k);
  }

  ghost predicate Plain(edges: set<Edge>) {
    && (forall e :: e in edges ==> e.0 != e.1)
    && (forall e, f :: e in edges && f in edges && e.0 == f.0 ==> e == f)
    && (forall e, f :: e in edges && f in edges && e.1 == f.1 ==> e == f)
  }

  lemma AcceptedIsPlain(edges: set<Edge>, head: Commit)
    requires Accepts(edges, head)
    ensures Plain(edges)
  {
    if edges != {} {
      var p :| PathTo(edges, head, p);
      forall e, f | e in edges && f in edges
        ensures e.0 != e.1 && (e.0 == f.0 ==> e == f) && (e.1 == f.1 ==> e == f)
      {
        PathIsPlain(edges, head, p, e, f);
      }
    }
  }

  // ----- the backward walk

  /** A walk along edges, ending at the head; all commits after the first are different. */
  ghost predicate Walk(edges: set<Edge>, head: Commit, w: seq<Commit>) {
    |w| >= 1 && w[|w| - 1] == head && PathEdges(w) <= edges && Distinct(w[1..])
  }

  lemma {:induction false} WalkFollowsPath(edges: set<Edge>, head: Commit, p: seq<Commit>, w: seq<Commit>, k: nat)
    requires PathTo(edges, head, p) && Walk(edges, head, w) && k < |w|
    ensures |w| - 1 - k < |p| && w[k] == p[|p| - |w| + k]
    decreases |w| - k
  {
    if k < |w| - 1 {
      WalkFollowsPath(edges, head, p, w, k + 1);
      assert Step(w, k) in PathEdges(w);
      var j: nat :| j + 1 < |p| && Step(w, k) == Step(p, j);
      assert j + 1 == |p| - |w| + k + 1;
    }
  }

  /** Along a simple path the walk never meets an edge again. */
  lemma NoCycleOnPath(edges: set<Edge>, head: Commit, w: seq<Commit>, before: Commit)
    requires Walk(edges, head, w) && (before, w[0]) in PathEdges(w)
    ensures !exists p :: PathTo(edges, head, p)
  {
    if p :| PathTo(edges, head, p) {
      var j: nat :| j + 1 < |w| && (before, w[0]) == Step(w, j);
      WalkFollowsPath(edges, head, p, w, 0);
      WalkFollowsPath(edges, head, p, w, j + 1);
    }
  }

  /** A walk that stops for want of a predecessor visits each commit once. */
  lemma StoppedWalkDistinct(edges: set<Edge>, head: Commit, w: seq<Commit>)
    requires Walk(edges, head, w) && forall e :: e in edges ==> e.1 != w[0]
    ensures Distinct(w)
  {
    forall j, k | 0 <= j < k < |w| ensures w[j] != w[k] {
      assert Step(w, k - 1) in PathEdges(w);
      if j > 0 {
        assert w[1..][j - 1] != w[1..][k - 1];
      }
    }
  }

  lemma SingletonWalk(w: seq<Commit>)
    requires |w| == 1
    ensures PathEdges(w) == {}
  {
  }

  /** Where the walk stops, it has seen the whole path, if there is one. */
  lemma StoppedWalk(edges: set<Edge>, head: Commit, w: seq<Commit>)
    requires edges != {} && Walk(edges, head, w) && forall e :: e in edges ==> e.1 != w[0]
    ensures (exists p :: PathTo(edges, head, p)) <==> PathEdges(w) == edges
  {
    hide PathEdges, Distinct;
    StoppedWalkDistinct(edges, head, w);
    if PathEdges(w) == edges {
      if |w| == 1 {
        SingletonWalk(w);
      }
      assert PathTo(edges, head, w);
    }
    if p :| PathTo(edges, head, p) {
      StoppedWalkIsPath(edges, head, p, w);
    }
  }

  lemma EdgeInto(edges: set<Edge>, head: Commit, p: seq<Commit>, k: nat)
    requires PathTo(edges, head, p) && 0 < k < |p|
    ensures exists e :: e in edges && e.1 == p[k]
  {
    assert Step(p, k - 1) in PathEdges(p);
  }

  lemma StoppedWalkIsPath(edges: set<Edge>, head: Commit, p: seq<Commit>, w: seq<Commit>)
    requires PathTo(edges, head, p) && Walk(edges, head, w) && forall e :: e in edges ==> e.1 != w[0]
    ensures w == p
  {
    WalkFollowsPath(edges, head, p, w, 0);
    if |w| < |p| {
      EdgeInto(edges, head, p, |p| - |w|);
    }
    forall k | 0 <= k < |p| ensures w[k] == p[k] {
      WalkFollowsPath(edges, head, p, w, k);
    }
  }

  lemma LongerWalkEdges(w: seq<Commit>, before: Commit)
    requires |w| >= 1
    ensures PathEdges([before] + w) == PathEdges(w) + {(before, w[0])}
  {
    var x := [before] + w;
    forall e ensures e in PathEdges(x) <==> e in PathEdges(w) || e == (before, w[0]) {
      if e in PathEdges(w) {
        var k: nat :| k + 1 < |w| && e == Step(w, k);
        assert e == Step(x, k + 1);
      }
      assert Step(x, 0) == (before, w[0]);
      if e in PathEdges(x) {
        var k: nat :| k + 1 < |x| && e == Step(x, k);
        assert k > 0 ==> e == Step(w, k - 1);
      }
    }
  }

  lemma WalkExtended(edges: set<Edge>, head: Commit, w: seq<Commit>, before: Commit)
    requires Plain(edges) && Walk(edges, head, w) && (before, w[0]) in edges && (before, w[0]) !in PathEdges(w)
    ensures Walk(edges, head, [before] + w) && PathEdges([before] + w) == PathEdges(w) + {(before, w[0])}
  {
    var x := [before] + w;
    LongerWalkEdges(w, before);
    forall j, k | 0 <= j < k < |x[1..]| ensures x[1..][j] != x[1..][k] {
      var arriving := Step(w, k - 1);
      assert arriving in PathEdges(w) && arriving in edges;
      assert arriving != (before, w[0]);
      if j > 0 {
        assert w[1..][j - 1] != w[1..][k - 1];
      }
    }
    assert x[|x| - 1] == head;
  }

  // ----- the check

  ghost predicate Tables(edges: set<Edge>, successors: map<Commit, Commit>, predecessors: map<Commit, Commit>) {
    && Plain(edges)
    && (forall e :: e in edges ==> e.0 in successors && successors[e.0] == e.1)
    && (forall b :: b in successors ==> (b, successors[b]) in edges)
    && (forall e :: e in edges ==> e.1 in predecessors && predecessors[e.1] == e.0)
    && (forall h :: h in predecessors ==> (predecessors[h], h) in edges)
  }

  lemma NotPlain(observations: seq<Edge>, head: Commit, e: Edge, f: Edge)
    requires e in observations && f in observations
    requires e.0 == e.1 || (e != f && (e.0 == f.0 || e.1 == f.1))
    ensures !Accepts(EdgesOf(observations), head)
  {
    if Accepts(EdgesOf(observations), head) {
      AcceptedIsPlain(EdgesOf(observations), head);
    }
  }

  method BuildTables(observations: seq<Edge>, ghost head: Commit)
    returns (result: Result<map<Commit, Commit>, HistoryError>, transitions: set<Edge>)
    ensures result.Err? ==> !Accepts(EdgesOf(observations), head)
    ensures result.Ok? ==> transitions == EdgesOf(observations)
    ensures result.Ok? ==> exists successors :: Tables(transitions, successors, result.value)
  {
    hide Plain, Accepts;
    var successors: map<Commit, Commit>, predecessors: map<Commit, Commit> := map[], map[];
    transitions := {};
    NoTables();
    for n := 0 to |observations|
      invariant transitions == EdgesOf(observations[..n]) && Tables(transitions, successors, predecessors)
    {
      var edge := observations[n];
      assert EdgesOf(observations[..n + 1]) == EdgesOf(observations[..n]) + {edge};
      if edge.0 == edge.1 {
        NotPlain(observations, head, edge, edge);
        return Err(NoAdvance), transitions;
      }
      if edge in transitions {
        continue;
      }
      if edge.0 in successors {
        NotPlain(observations, head, edge, (edge.0, successors[edge.0]));
        return Err(ConflictingSuccessors), transitions;
      }
      if edge.1 in predecessors {
        NotPlain(observations, head, edge, (predecessors[edge.1], edge.1));
        return Err(ConflictingPredecessors), transitions;
      }
      TablesExtended(transitions, successors, predecessors, edge);
      transitions := transitions + {edge};
      successors := successors[edge.0 := edge.1];
      predecessors := predecessors[edge.1 := edge.0];
    }
    assert observations[..|observations|] == observations;
    return Ok(predecessors), transitions;
  }

  /** Follows the predecessors back from the head; terminates because no transition is followed twice. */
  method WalkBack(transitions: set<Edge>, predecessors: map<Commit, Commit>, head: Commit)
    returns (result: Result<set<Edge>, HistoryError>, ghost walk: seq<Commit>)
    requires Plain(transitions) && forall e :: e in transitions ==> e.1 in predecessors && predecessors[e.1] == e.0
    requires forall h :: h in predecessors ==> (predecessors[h], h) in transitions
    ensures result.Err? ==> !exists p :: PathTo(transitions, head, p)
    ensures result.Ok? ==> Walk(transitions, head, walk) && result.value == PathEdges(walk)
    ensures result.Ok? ==> forall e :: e in transitions ==> e.1 != walk[0]
  {
    hide Plain, PathEdges, Walk, PathTo;
    var visited: set<Edge> := {};
    var cursor := head;
    walk := [head];
    NewWalk(transitions, head);
    while cursor in predecessors
      invariant |walk| >= 1 && walk[0] == cursor
      invariant Walk(transitions, head, walk) && visited == PathEdges(walk)
      decreases |transitions - visited|
    {
      var before := predecessors[cursor];
      if (before, cursor) in visited {
        NoCycleOnPath(transitions, head, walk, before);
        return Err(Cycle), walk;
      }
      WalkExtended(transitions, head, walk, before);
      assert transitions - visited == (transitions - (visited + {(before, cursor)})) + {(before, cursor)};
      visited := visited + {(before, cursor)};
      walk := [before] + walk;
      cursor := before;
    }
    return Ok(visited), walk;
  }

  /** Success exactly for one simple path ending at the head; duplicates and arrival order do not matter. */
  method CheckHistory(observations: seq<Edge>, head: Commit) returns (result: Result<nat, HistoryError>)
    ensures result.Ok? <==> Accepts(EdgesOf(observations), head)
    ensures result.Ok? ==> result.value == |observations|
  {
    hide Accepts, PathEdges, EdgesOf, Walk, PathTo;
    var tables, transitions := BuildTables(observations, head);
    if tables.Err? {
      return Err(tables.error);
    }
    if transitions != {} {
      var visited;
      ghost var walk;
      visited, walk := WalkBack(transitions, tables.value, head);
      if visited.Err? {
        Unaccepted(transitions, head);
        return Err(visited.error);
      }
      WalkStays(transitions, head, walk);
      StoppedWalk(transitions, head, walk);
      if |visited.value| != |transitions| {
        Unaccepted(transitions, head);
        return Err(Disconnected);
      }
      SubsetSize(visited.value, transitions);
    }
    Accepted(transitions, head);
    return Ok(|observations|);
  }

  lemma WalkStays(edges: set<Edge>, head: Commit, w: seq<Commit>)
    requires Walk(edges, head, w)
    ensures PathEdges(w) <= edges
  {
  }

  lemma NoTables()
    ensures EdgesOf([]) == {} && Tables({}, map[], map[])
  {
  }

  lemma TablesExtended(edges: set<Edge>, successors: map<Commit, Commit>, predecessors: map<Commit, Commit>, e: Edge)
    requires Tables(edges, successors, predecessors) && e.0 != e.1 && e.0 !in successors && e.1 !in predecessors
    ensures Tables(edges + {e}, successors[e.0 := e.1], predecessors[e.1 := e.0])
  {
  }

  lemma NewWalk(edges: set<Edge>, head: Commit)
    ensures Walk(edges, head, [head]) && PathEdges([head]) == {}
  {
  }

  lemma Unaccepted(edges: set<Edge>, head: Commit)
    requires edges != {} && !exists p :: PathTo(edges, head, p)
    ensures !Accepts(edges, head)
  {
  }

  lemma Accepted(edges: set<Edge>, head: Commit)
    requires edges == {} || exists p :: PathTo(edges, head, p)
    ensures Accepts(edges, head)
  {
  }

  // ----- how an accepted history grows

  /** The path of an accepted history is unique. */
  lemma PathIsUnique(edges: set<Edge>, head: Commit, p: seq<Commit>, q: seq<Commit>)
    requires PathTo(edges, head, p) && PathTo(edges, head, q)
    ensures p == q
  {
    WalkOf(edges, head, q);
    WalkOf(edges, head, p);
    WalkFollowsPath(edges, head, p, q, 0);
    WalkFollowsPath(edges, head, q, p, 0);
    forall k | 0 <= k < |p| ensures p[k] == q[k] {
      WalkFollowsPath(edges, head, p, q, k);
    }
  }

  lemma WalkOf(edges: set<Edge>, head: Commit, p: seq<Commit>)
    requires PathTo(edges, head, p)
    ensures Walk(edges, head, p)
  {
  }

  lemma NothingLeavesHead(edges: set<Edge>, head: Commit, p: seq<Commit>, e: Edge)
    requires PathTo(edges, head, p) && e in edges
    ensures e.0 != head
  {
    var k: nat :| k + 1 < |p| && e == Step(p, k);
  }

  /** A transition back to a commit of the path leaves an edge out of the new head, or a loop. */
  lemma ReturningTransition(edges: set<Edge>, head: Commit, p: seq<Commit>, next: Commit)
    requires PathTo(edges, head, p) && next in p
    ensures !Accepts(edges + {(head, next)}, next)
  {
    var more := edges + {(head, next)};
    if Accepts(more, next) {
      var q :| PathTo(more, next, q);
      var k :| 0 <= k < |p| && p[k] == next;
      NothingLeavesHead(more, next, q, if k < |p| - 1 then Step(p, k) else (head, next));
    }
  }

  /** One more transition from the accepted head is accepted exactly when it leads to a commit never seen before. */
  lemma NextTransition(edges: set<Edge>, head: Commit, p: seq<Commit>, next: Commit)
    requires PathTo(edges, head, p)
    ensures Accepts(edges + {(head, next)}, next) <==> next !in p
  {
    if next in p {
      ReturningTransition(edges, head, p, next);
    } else {
      var q := p + [next];
      var more := edges + {(head, next)};
      forall e ensures e in PathEdges(q) <==> e in more {
        if e in edges {
          var k: nat :| k + 1 < |p| && e == Step(p, k);
          assert e == Step(q, k);
        }
        assert Step(q, |p| - 1) == (head, next);
        if e in PathEdges(q) {
          var k: nat :| k + 1 < |q| && e == Step(q, k);
          assert k < |p| - 1 ==> e == Step(p, k);
        }
      }
      assert PathTo(more, next, q);
    }
  }

  /** Along a simple path, a commit is followed by the commit its edge leads to. */
  lemma FollowsEdge(edges: set<Edge>, head: Commit, q: seq<Commit>, e: Edge, j: nat)
    requires PathTo(edges, head, q) && e in edges && j < |q| && q[j] == e.0
    ensures j + 1 < |q| && q[j + 1] == e.1
  {
    var k: nat :| k + 1 < |q| && e == Step(q, k);
  }

  lemma {:induction false} PathCopied(edges: set<Edge>, head: Commit, p: seq<Commit>, more: set<Edge>, h: Commit,
                                      q: seq<Commit>, i: nat, j: nat, k: nat)
    requires PathTo(edges, head, p) && PathTo(more, h, q) && edges <= more
    requires i <= k < |p| && j < |q| && q[j] == p[i]
    ensures j + k - i < |q| && q[j + k - i] == p[k]
    decreases k - i
  {
    if i < k {
      assert Step(p, i) in PathEdges(p);
      FollowsEdge(more, h, q, Step(p, i), j);
      PathCopied(edges, head, p, more, h, q, i + 1, j + 1, k);
    }
  }

  /** A transition from the head back to a commit already seen can never be made good: whatever is recorded later, and
      whatever the head is then, the history is refused. */
  lemma ReturnIsFinal(edges: set<Edge>, head: Commit, p: seq<Commit>, next: Commit, more: set<Edge>, h: Commit)
    requires PathTo(edges, head, p) && next in p && edges + {(head, next)} <= more
    ensures !Accepts(more, h)
  {
    assert (head, next) in more;
    if Accepts(more, h) {
      var q :| PathTo(more, h, q);
      var i :| 0 <= i < |p| && p[i] == next;
      var e: nat :| e + 1 < |q| && (head, next) == Step(q, e);
      PathCopied(edges, head, p, more, h, q, i, e + 1, |p| - 1);
    }
  }

  /** The history of a push and the force push that takes it back: refused with every later history, for every head. */
  lemma ForcePushBack(x: Commit, y: Commit, later: seq<Edge>, h: Commit)
    requires x != y
    ensures Accepts(EdgesOf([(x, y)]), y) && !Accepts(EdgesOf([(x, y), (y, x)] + later), h)
  {
    var p, edges, all := [x, y], EdgesOf([(x, y)]), [(x, y), (y, x)] + later;
    assert Step(p, 0) == (x, y);
    assert PathTo(edges, y, p);
    assert all[0] in EdgesOf(all) && all[1] in EdgesOf(all);
    ReturnIsFinal(edges, y, p, x, EdgesOf(all), h);
  }
}
