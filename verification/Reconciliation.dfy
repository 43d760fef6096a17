/** Reconciling a ledger with the authoritative head of the pull request. */
module Reconciliation {
  import opened Wrappers
  import opened Ledgers
  import opened HeadHistory

  datatype ReconcileError = InvalidBase | InvalidHead | InvalidLedger | InvalidHistory(history: HistoryError)

  datatype EffectivePullRequest = EffectivePullRequest(baseCommit: string, headCommit: string, auditedTransitions: nat)

  predicate IsObjectId(value: string) {
    && (|value| == 40 || |value| == 64)
    && forall k :: 0 <= k < |value| ==> '0' <= value[k] <= '9' || 'a' <= value[k] <= 'f'
  }

  function Transitions(observations: seq<Observation>): (edges: seq<Edge>)
    ensures |edges| == |observations|
  {
    seq(|observations|, k requires 0 <= k < |observations| =>
      (observations[k].beforeCommit, observations[k].headCommit))
  }

  // ----- what is accepted, in words of the observations

  const HEX_DIGITS := "0123456789abcdef"

  /** A full object id: 40 or 64 lower-case hexadecimal digits. */
  ghost predicate FullObjectId(value: string) {
    |value| in {40, 64} && forall c :: c in value ==> c in HEX_DIGITS
  }

  ghost predicate HasTransition(observations: seq<Observation>, x: Edge) {
    exists o :: o in observations && o.beforeCommit == x.0 && o.headCommit == x.1
  }

  ghost predicate Neighbours(p: seq<Commit>, before: Commit, after: Commit) {
    exists k :: 0 <= k < |p| - 1 && p[k] == before && p[k + 1] == after
  }

  /** The commits are different and end at the head, and their neighbours are exactly the observed transitions. */
  ghost predicate OnePath(observations: seq<Observation>, head: Commit, p: seq<Commit>) {
    && |p| >= 2 && p[|p| - 1] == head
    && (forall j, k :: 0 <= j < k < |p| ==> p[j] != p[k])
    && (forall o :: o in observations ==> Neighbours(p, o.beforeCommit, o.headCommit))
    && (forall before, after :: Neighbours(p, before, after) ==> HasTransition(observations, (before, after)))
  }

  ghost predicate LeadsTo(observations: seq<Observation>, head: Commit) {
    observations == [] || exists p :: OnePath(observations, head, p)
  }

  lemma ObjectIdExactly(value: string)
    ensures IsObjectId(value) <==> FullObjectId(value)
  {
    forall c: char ensures c in HEX_DIGITS <==> '0' <= c <= '9' || 'a' <= c <= 'f' {
      HexDigit(c);
    }
    assert forall k :: 0 <= k < |value| ==> value[k] in value;
  }

  lemma HexDigit(c: char)
    ensures c in HEX_DIGITS <==> '0' <= c <= '9' || 'a' <= c <= 'f'
  {
    var digits := ['0', '1', '2', '3', '4', '5', '6', '7', '8', '9', 'a', 'b', 'c', 'd', 'e', 'f'];
    assert HEX_DIGITS == digits;
    if '0' <= c <= '9' {
      assert digits[c as int - '0' as int] == c;
    } else if 'a' <= c <= 'f' {
      assert digits[10 + c as int - 'a' as int] == c;
    }
  }

  lemma NeighboursAreEdges(p: seq<Commit>)
    ensures forall e :: e in PathEdges(p) <==> Neighbours(p, e.0, e.1)
  {
    forall e ensures e in PathEdges(p) <==> Neighbours(p, e.0, e.1) {
      if e in PathEdges(p) {
        var k: nat :| k + 1 < |p| && e == Step(p, k);
      }
      if Neighbours(p, e.0, e.1) {
        var k: nat :| k < |p| - 1 && p[k] == e.0 && p[k + 1] == e.1;
        assert e == Step(p, k);
      }
    }
  }

  lemma OnePathExactly(observations: seq<Observation>, head: Commit, p: seq<Commit>)
    ensures PathTo(EdgesOf(Transitions(observations)), head, p) <==> OnePath(observations, head, p)
  {
    TransitionOf(observations);
    hide EdgesOf, Transitions;
    var edges := EdgesOf(Transitions(observations));
    NeighboursAreEdges(p);
    hide PathEdges, HasTransition, Neighbours;
    if PathTo(edges, head, p) {
      forall o | o in observations ensures Neighbours(p, o.beforeCommit, o.headCommit) {
        ItsTransition(observations, o);
        assert (o.beforeCommit, o.headCommit) in edges;
      }
      forall before, after | Neighbours(p, before, after) ensures HasTransition(observations, (before, after)) {
        assert (before, after) in PathEdges(p);
      }
    }
    if OnePath(observations, head, p) {
      forall e ensures e in edges <==> e in PathEdges(p) {
        if HasTransition(observations, e) {
          var o := TransitionMaker(observations, e);
        }
      }
    }
  }

  lemma ItsTransition(observations: seq<Observation>, o: Observation)
    requires o in observations
    ensures HasTransition(observations, (o.beforeCommit, o.headCommit))
  {
  }

  lemma TransitionMaker(observations: seq<Observation>, e: Edge) returns (o: Observation)
    requires HasTransition(observations, e)
    ensures o in observations && o.beforeCommit == e.0 && o.headCommit == e.1
  {
    o :| o in observations && o.beforeCommit == e.0 && o.headCommit == e.1;
  }

  lemma LeadsToExactly(observations: seq<Observation>, head: Commit)
    ensures Accepts(EdgesOf(Transitions(observations)), head) <==> LeadsTo(observations, head)
  {
    TransitionOf(observations);
    hide PathTo, OnePath, EdgesOf, Transitions;
    forall p ensures PathTo(EdgesOf(Transitions(observations)), head, p) <==> OnePath(observations, head, p) {
      OnePathExactly(observations, head, p);
    }
    if observations != [] {
      var o := observations[0];
      assert HasTransition(observations, (o.beforeCommit, o.headCommit));
      assert (o.beforeCommit, o.headCommit) in EdgesOf(Transitions(observations));
    } else {
      assert EdgesOf(Transitions(observations)) == {};
    }
  }

  /** A sound ledger is accepted exactly when its transitions are none, or the neighbours of one path through different
      commits that ends at the authoritative head. */
  method ReconcileCurrentHead(z: Primitives, l: Ledger, base: string, head: string)
    returns (result: Result<EffectivePullRequest, ReconcileError>)
    ensures result.Ok? <==>
            FullObjectId(base) && FullObjectId(head) && Sound(z, l) && LeadsTo(l.observations, head)
    ensures result.Ok? ==> result.value == EffectivePullRequest(base, head, |l.observations|)
  {
    hide Valid, Sound, Accepts, EdgesOf, IsObjectId, FullObjectId, LeadsTo;
    ObjectIdExactly(base);
    ObjectIdExactly(head);
    LeadsToExactly(l.observations, head);
    if !IsObjectId(base) {
      return Err(InvalidBase);
    }
    if !IsObjectId(head) {
      return Err(InvalidHead);
    }
    var valid := Validate(z, l);
    if !valid {
      return Err(InvalidLedger);
    }
    var history := CheckHistory(Transitions(l.observations), head);
    if history.Err? {
      return Err(InvalidHistory(history.error));
    }
    return Ok(EffectivePullRequest(base, head, history.value));
  }

  /** Arrival order and repeated transitions do not matter. */
  lemma AcceptanceIgnoresOrder(observations: seq<Observation>, others: seq<Observation>, head: string)
    requires forall x :: HasTransition(observations, x) <==> HasTransition(others, x)
    ensures LeadsTo(observations, head) <==> LeadsTo(others, head)
  {
    LeadsToExactly(observations, head);
    LeadsToExactly(others, head);
    hide LeadsTo, Accepts;
    TransitionOf(observations);
    TransitionOf(others);
    assert EdgesOf(Transitions(observations)) == EdgesOf(Transitions(others));
  }

  lemma TransitionOf(observations: seq<Observation>)
    ensures forall x :: x in EdgesOf(Transitions(observations)) <==> HasTransition(observations, x)
  {
    var edges := Transitions(observations);
    forall x ensures x in EdgesOf(edges) <==> HasTransition(observations, x) {
      if x in edges {
        var k :| 0 <= k < |edges| && edges[k] == x;
        assert observations[k] in observations;
      }
      if o :| o in observations && o.beforeCommit == x.0 && o.headCommit == x.1 {
        var k :| 0 <= k < |observations| && observations[k] == o;
        assert edges[k] == x;
      }
    }
  }

  /** Once the head has returned to a commit of its history, no ledger that keeps these observations is ever reconciled
      again, with any head. */
  lemma ReturnStaysRefused(observations: seq<Observation>, p: seq<string>, head: string, next: string,
                           later: seq<Observation>, h: string)
    requires OnePath(observations, head, p) && next in p
    requires HasTransition(later, (head, next))
    requires forall o :: o in observations ==> o in later
    ensures !LeadsTo(later, h)
  {
    OnePathExactly(observations, head, p);
    LeadsToExactly(later, h);
    hide PathTo, OnePath, Accepts, LeadsTo;
    TransitionOf(observations);
    TransitionOf(later);
    ReturnIsFinal(EdgesOf(Transitions(observations)), head, p, next, EdgesOf(Transitions(later)), h);
  }
}
