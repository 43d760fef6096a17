/** Whole runs of ingest: any arrival order of the same deliveries leaves the same ledger. */
module DeliveryOrders {
  import opened Wrappers
  import opened Uniqueness
  import opened Ledgers
  import opened Ingest
  import opened Confluence

  datatype Run = Failed | At(ledger: Option<Ledger>)

  /** The ledger after one more request, if it is taken in. */
  ghost function After(z: Primitives, g: Gateway, ledger: Option<Ledger>, q: Request): Option<Ledger> {
    match IngestResult(z, g, ledger, q)
    case Err(_) => None
    case Ok(next) => Some(next.0)
  }

  /** Taking in the requests one after another, stopping at the first failure. */
  ghost function IngestAll(z: Primitives, g: Gateway, ledger: Option<Ledger>, qs: seq<Request>): Run
    decreases |qs|
  {
    if qs == [] then At(ledger)
    else
      var next := After(z, g, ledger, qs[0]);
      if next.None? then Failed else IngestAll(z, g, next, qs[1..])
  }

  ghost predicate DistinctIds(qs: seq<Request>) {
    forall i, j :: 0 <= i < j < |qs| ==> qs[i].deliveryId != qs[j].deliveryId
  }

  lemma SwapFirstTwo(z: Primitives, g: Gateway, ledger: Option<Ledger>, q: Request, p: Request, rest: seq<Request>)
    requires Lawful(z) && q.deliveryId != p.deliveryId
    ensures IngestAll(z, g, ledger, [q, p] + rest) == IngestAll(z, g, ledger, [p, q] + rest)
  {
    hide IngestResult, Lawful;
    TwoThenRest(z, g, ledger, q, p, rest);
    TwoThenRest(z, g, ledger, p, q, rest);
    IngestConfluent(z, g, ledger, q, p);
  }

  lemma TwoThenRest(z: Primitives, g: Gateway, ledger: Option<Ledger>, q: Request, p: Request, rest: seq<Request>)
    ensures IngestAll(z, g, ledger, [q, p] + rest) ==
            match Twice(z, g, ledger, q, p) case None => Failed case Some(l) => IngestAll(z, g, Some(l), rest)
  {
    hide IngestResult;
    assert ([q, p] + rest)[1..] == [p] + rest;
    assert ([p] + rest)[1..] == rest;
  }

  lemma FirstThenRest(z: Primitives, g: Gateway, ledger: Option<Ledger>, q: Request, rest: seq<Request>)
    ensures IngestAll(z, g, ledger, [q] + rest) ==
            var next := After(z, g, ledger, q); if next.None? then Failed else IngestAll(z, g, next, rest)
  {
    hide After;
    assert ([q] + rest)[1..] == rest;
  }

  lemma Reordered(qs: seq<Request>, k: nat)
    requires 0 < k < |qs|
    ensures qs == [qs[0]] + qs[1..]
    ensures [qs[1..][k - 1]] + (qs[1..][..k - 1] + qs[1..][k..]) == [qs[k]] + (qs[1..k] + qs[k + 1..])
    ensures [qs[0]] + ([qs[k]] + (qs[1..k] + qs[k + 1..])) == [qs[0], qs[k]] + (qs[1..k] + qs[k + 1..])
    ensures [qs[k], qs[0]] + (qs[1..k] + qs[k + 1..]) == [qs[k]] + (qs[..k] + qs[k + 1..])
  {
  }

  /** A later request can be taken in first. */
  lemma {:induction false} BringToFront(z: Primitives, g: Gateway, ledger: Option<Ledger>, qs: seq<Request>, k: nat)
    requires Lawful(z) && DistinctIds(qs) && k < |qs|
    ensures IngestAll(z, g, ledger, qs) == IngestAll(z, g, ledger, [qs[k]] + (qs[..k] + qs[k + 1..]))
    decreases k
  {
    hide After, Lawful, IngestAll;
    if k == 0 {
      assert [qs[0]] + (qs[..0] + qs[1..]) == qs;
    } else {
      var rest := qs[1..k] + qs[k + 1..];
      var next := After(z, g, ledger, qs[0]);
      Reordered(qs, k);
      FirstThenRest(z, g, ledger, qs[0], qs[1..]);
      BringToFront(z, g, next, qs[1..], k - 1);
      FirstThenRest(z, g, ledger, qs[0], [qs[k]] + rest);
      SwapFirstTwo(z, g, ledger, qs[0], qs[k], rest);
    }
  }

  lemma Without(qs: seq<Request>, k: nat)
    requires k < |qs| && DistinctIds(qs)
    ensures DistinctIds(qs[..k] + qs[k + 1..])
    ensures multiset(qs[..k] + qs[k + 1..]) == multiset(qs) - multiset{qs[k]}
  {
    var a, b := qs[..k], qs[k + 1..];
    assert qs == a + [qs[k]] + b;
    assert multiset(qs) == multiset(a) + multiset{qs[k]} + multiset(b);
    assert multiset(a + b) == multiset(a) + multiset(b);
  }

  /** The same deliveries in any order either all succeed or not, and end in the very same ledger. */
  lemma {:induction false} ArrivalOrderIrrelevant(z: Primitives, g: Gateway, ledger: Option<Ledger>, qs: seq<Request>,
                                                   ps: seq<Request>)
    requires Lawful(z) && DistinctIds(qs) && multiset(qs) == multiset(ps)
    ensures IngestAll(z, g, ledger, qs) == IngestAll(z, g, ledger, ps)
    decreases |ps|
  {
    hide After, Lawful;
    assert |qs| == |multiset(qs)| == |multiset(ps)| == |ps|;
    if ps != [] {
      assert ps[0] in multiset(qs);
      var k :| 0 <= k < |qs| && qs[k] == ps[0];
      var rest := qs[..k] + qs[k + 1..];
      BringToFront(z, g, ledger, qs, k);
      Without(qs, k);
      assert ps == [ps[0]] + ps[1..];
      assert multiset(ps[1..]) == multiset(ps) - multiset{ps[0]};
      assert ([qs[k]] + rest)[1..] == rest;
      ArrivalOrderIrrelevant(z, g, After(z, g, ledger, ps[0]), rest, ps[1..]);
    }
  }

  // ----- at least once

  /** The second request delivers what the first did, perhaps received at another time. */
  ghost predicate Repeats(z: Primitives, g: Gateway, q: Request, p: Request) {
    p == q ||
    (p.deliveryId == q.deliveryId && Open(z, g, p).Ok? && Open(z, g, q).Ok? &&
     var o, n := Open(z, g, q).value, Open(z, g, p).value;
     n.identity == o.identity && n.kind == o.kind && n.hash == o.hash)
  }

  lemma RepeatChangesNothing(z: Primitives, g: Gateway, l: Ledger, q: Request, p: Request)
    requires Taken(z, g, l, q) && Repeats(z, g, q, p)
    ensures After(z, g, Some(l), p) == Some(l)
  {
    hide IngestResult, Open, Valid;
    IngestIdempotent(z, g, l, q, p);
  }

  /** The requests that do not repeat q. */
  ghost function Except(z: Primitives, g: Gateway, qs: seq<Request>, q: Request): (rest: seq<Request>)
    ensures |rest| <= |qs| && forall p :: p in rest <==> p in qs && !Repeats(z, g, q, p)
    decreases |qs|
  {
    if qs == [] then []
    else
      assert qs == [qs[0]] + qs[1..];
      var rest := Except(z, g, qs[1..], q);
      if Repeats(z, g, q, qs[0]) then rest else [qs[0]] + rest
  }

  /** Only the first of every group of repeats. */
  ghost function Once(z: Primitives, g: Gateway, qs: seq<Request>): (firsts: seq<Request>)
    decreases |qs|
  {
    if qs == [] then [] else [qs[0]] + Once(z, g, Except(z, g, qs[1..], qs[0]))
  }

  lemma {:induction false} TakenSkipsRepeats(z: Primitives, g: Gateway, l: Ledger, q: Request, qs: seq<Request>)
    requires Lawful(z) && Taken(z, g, l, q)
    ensures IngestAll(z, g, Some(l), qs) == IngestAll(z, g, Some(l), Except(z, g, qs, q))
    decreases |qs|
  {
    hide IngestResult, Lawful, Taken, Repeats;
    if qs != [] {
      if Repeats(z, g, q, qs[0]) {
        RepeatChangesNothing(z, g, l, q, qs[0]);
        TakenSkipsRepeats(z, g, l, q, qs[1..]);
      } else {
        FirstThenRest(z, g, Some(l), qs[0], Except(z, g, qs[1..], q));
        if IngestResult(z, g, Some(l), qs[0]).Ok? {
          TakenKept(z, g, l, q, qs[0]);
          TakenSkipsRepeats(z, g, IngestResult(z, g, Some(l), qs[0]).value.0, q, qs[1..]);
        }
      }
    }
  }

  /** Deliveries that arrive more than once, at any distance, end in the ledger of the run in which each arrives
      once. */
  lemma {:induction false} RepeatsIrrelevant(z: Primitives, g: Gateway, ledger: Option<Ledger>, qs: seq<Request>)
    requires Lawful(z)
    ensures IngestAll(z, g, ledger, qs) == IngestAll(z, g, ledger, Once(z, g, qs))
    decreases |qs|
  {
    hide IngestResult, Lawful, Taken, Repeats;
    if qs != [] {
      var rest := Except(z, g, qs[1..], qs[0]);
      FirstThenRest(z, g, ledger, qs[0], Once(z, g, rest));
      if IngestResult(z, g, ledger, qs[0]).Ok? {
        TakenAfter(z, g, ledger, qs[0]);
        TakenSkipsRepeats(z, g, IngestResult(z, g, ledger, qs[0]).value.0, qs[0], qs[1..]);
        RepeatsIrrelevant(z, g, After(z, g, ledger, qs[0]), rest);
      }
    }
  }

  /** One request per delivery id. */
  ghost predicate IdsDetermine(qs: seq<Request>) {
    forall p, q :: p in qs && q in qs && p.deliveryId == q.deliveryId ==> p == q
  }

  lemma {:induction false} OnceIsDistinct(z: Primitives, g: Gateway, qs: seq<Request>)
    requires IdsDetermine(qs)
    ensures DistinctIds(Once(z, g, qs)) && forall q :: q in Once(z, g, qs) <==> q in qs
    decreases |qs|
  {
    if qs != [] {
      assert qs == [qs[0]] + qs[1..];
      var rest := Except(z, g, qs[1..], qs[0]);
      OnceIsDistinct(z, g, rest);
      hide Open;
    }
  }

  lemma SameMembers(qs: seq<Request>, ps: seq<Request>)
    requires DistinctIds(qs) && DistinctIds(ps) && forall q :: q in qs <==> q in ps
    ensures multiset(qs) == multiset(ps)
  {
    ApartIsUnique(Itself, qs);
    ApartIsUnique(Itself, ps);
    forall q ensures multiset(qs)[q] == multiset(ps)[q] {
      assert q in multiset(qs) <==> q in qs;
      assert q in multiset(ps) <==> q in ps;
    }
  }

  /** Delivered at least once and in any order: two runs over the same requests both succeed or both fail, and end in
      the very same ledger. */
  lemma AtLeastOnce(z: Primitives, g: Gateway, ledger: Option<Ledger>, qs: seq<Request>, ps: seq<Request>)
    requires Lawful(z) && IdsDetermine(qs) && forall q :: q in qs <==> q in ps
    ensures IngestAll(z, g, ledger, qs) == IngestAll(z, g, ledger, ps)
  {
    hide Lawful, IngestAll;
    RepeatsIrrelevant(z, g, ledger, qs);
    RepeatsIrrelevant(z, g, ledger, ps);
    OnceIsDistinct(z, g, qs);
    OnceIsDistinct(z, g, ps);
    SameMembers(Once(z, g, qs), Once(z, g, ps));
    ArrivalOrderIrrelevant(z, g, ledger, Once(z, g, qs), Once(z, g, ps));
  }
}
