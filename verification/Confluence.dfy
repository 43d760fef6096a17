/** Ingest does not depend on the order of arrival, and repeating a delivery changes nothing. */
module Confluence {
  import opened Wrappers
  import opened Strings
  import opened Uniqueness
  import opened Ledgers
  import opened Ingest
  import Sorting

  /** Signing with a key satisfies verification with its public key; keys with one public key are one key; digests are
      well formed. */
  ghost predicate Lawful(z: Primitives) {
    && (forall key, identity: Identity, s: Snapshot ::
          identity.receiver.publicKey == z.publicKey(key) && s.signature == "" ==>
            z.snapshotSigned(identity, s.(signature := z.signSnapshot(key, identity, s))))
    && (forall j, k :: z.publicKey(j) == z.publicKey(k) ==> j == k)
    && (forall identity, ds, rs, ms, os :: z.validDigest(z.bodyDigest(identity, ds, rs, ms, os)))
  }

  // ----- bodies as multisets

  datatype Body = Body(ds: multiset<Delivery>, rs: multiset<Receipt>, ms: multiset<Dismissal>,
                       os: multiset<Observation>)

  function BodyOf(l: Ledger): Body {
    Body(multiset(l.deliveries), multiset(l.receipts), multiset(l.dismissals), multiset(l.observations))
  }

  ghost predicate Holds(z: Primitives, identity: Identity, body: Body) {
    BodyHolds(z, identity, body.ds, body.rs, body.ms, body.os)
  }

  function With(body: Body, d: Delivery, fact: Fact): Body {
    Body(body.ds + multiset{d},
         if fact.ReceiptFact? then body.rs + multiset{fact.receipt} else body.rs,
         if fact.DismissalFact? then body.ms + multiset{fact.dismissal} else body.ms,
         if fact.ObservationFact? then body.os + multiset{fact.observation} else body.os)
  }

  lemma WithCommutes(body: Body, d: Delivery, fact: Fact, e: Delivery, other: Fact)
    ensures With(With(body, d, fact), e, other) == With(With(body, e, other), d, fact)
  {
    var x, y := With(With(body, d, fact), e, other), With(With(body, e, other), d, fact);
    AddTwice(body.ds, d, e);
    assert x.rs == y.rs by {
      if fact.ReceiptFact? && other.ReceiptFact? {
        AddTwice(body.rs, fact.receipt, other.receipt);
      }
    }
    assert x.ms == y.ms by {
      if fact.DismissalFact? && other.DismissalFact? {
        AddTwice(body.ms, fact.dismissal, other.dismissal);
      }
    }
    assert x.os == y.os by {
      if fact.ObservationFact? && other.ObservationFact? {
        AddTwice(body.os, fact.observation, other.observation);
      }
    }
  }

  lemma AddTwice<T>(members: multiset<T>, x: T, y: T)
    ensures members + multiset{x} + multiset{y} == members + multiset{y} + multiset{x}
  {
  }

  /** No record mentions the delivery. */
  ghost predicate Unlisted(body: Body, id: string) {
    && (forall d :: d in body.ds ==> d.id != id) && (forall r :: r in body.rs ==> r.source != id)
    && (forall m :: m in body.ms ==> m.source != id) && (forall o :: o in body.os ==> o.source != id)
  }

  predicate FromDelivery(fact: Fact, id: string) {
    match fact
    case ReceiptFact(receipt) => receipt.source == id
    case DismissalFact(dismissal) => dismissal.source == id
    case ObservationFact(observation) => observation.source == id
    case IgnoredReview => true
  }

  lemma DerivedFrom(z: Primitives, g: Gateway, q: Request, o: Opening)
    ensures var fact := DeriveFact(z, g, o.webhook, q.deliveryId, q.receivedAt, o.hash);
            fact.Ok? ==> FromDelivery(fact.value, q.deliveryId)
  {
  }

  lemma UnknownUnlisted(z: Primitives, l: Ledger, id: string)
    requires BodyValid(z, l) && FindDelivery(l.deliveries, id).None?
    ensures Unlisted(BodyOf(l), id)
  {
    hide UniqueBy, DeliveryCovered, Agrees;
    forall r | r in multiset(l.receipts) ensures r.source != id {
      assert ReceiptHolds(z, multiset(l.deliveries), r);
    }
    forall m | m in multiset(l.dismissals) ensures m.source != id {
      assert DismissalHolds(z, multiset(l.deliveries), multiset(l.receipts), m);
    }
    forall o | o in multiset(l.observations) ensures o.source != id {
      assert ObservationHolds(z, multiset(l.deliveries), o);
    }
  }

  lemma UnlistedWith(body: Body, id: string, d: Delivery, fact: Fact)
    requires Unlisted(body, id) && d.id != id && FromDelivery(fact, d.id) && (fact.IgnoredReview? || d.id != id)
    ensures Unlisted(With(body, d, fact), id)
  {
    var more := With(body, d, fact);
    forall e | e in more.ds ensures e.id != id {
      assert e in body.ds || e == d;
    }
    match fact
    case ReceiptFact(receipt) => assert forall x :: x in more.rs ==> x in body.rs || x == receipt;
    case DismissalFact(dismissal) => assert forall x :: x in more.ms ==> x in body.ms || x == dismissal;
    case ObservationFact(observation) => assert forall x :: x in more.os ==> x in body.os || x == observation;
    case IgnoredReview =>
  }

  // ----- a valid body stays valid without its newest delivery

  lemma SourceWithout(ds: multiset<Delivery>, d: Delivery, source: string, kind: WebhookKind, payloadHash: string,
                      digest: string, receivedAt: Option<string>)
    requires SourceOf(ds + multiset{d}, source, kind, payloadHash, digest, receivedAt) && source != d.id
    ensures SourceOf(ds, source, kind, payloadHash, digest, receivedAt)
  {
  }

  lemma ReceiptsWithout(z: Primitives, body: Body, d: Delivery, fact: Fact)
    requires ReceiptsHold(z, With(body, d, fact).ds, With(body, d, fact).rs) && Unlisted(body, d.id)
    ensures ReceiptsHold(z, body.ds, body.rs)
  {
    hide SourceOf, UniqueBy;
    var more := With(body, d, fact);
    UniqueBySub(ReviewId, body.rs, more.rs);
    UniqueBySub(ReceiptSource, body.rs, more.rs);
    forall r | r in body.rs ensures ReceiptHolds(z, body.ds, r) {
      assert ReceiptHolds(z, more.ds, r);
      SourceWithout(body.ds, d, r.source, ReviewSubmitted, r.payloadHash, z.receiptDigest(r), None);
    }
  }

  lemma DismissalsWithout(z: Primitives, body: Body, d: Delivery, fact: Fact)
    requires DismissalsHold(z, With(body, d, fact).ds, With(body, d, fact).rs, With(body, d, fact).ms)
    requires Unlisted(body, d.id)
    ensures DismissalsHold(z, body.ds, body.rs, body.ms)
  {
    hide SourceOf, UniqueBy, Agrees;
    var more := With(body, d, fact);
    UniqueBySub(DismissalSource, body.ms, more.ms);
    forall m | m in body.ms ensures DismissalHolds(z, body.ds, body.rs, m) {
      assert DismissalHolds(z, more.ds, more.rs, m);
      SourceWithout(body.ds, d, m.source, ReviewDismissed, m.payloadHash, z.dismissalDigest(m), Some(m.receivedAt));
    }
  }

  lemma ObservationsWithout(z: Primitives, body: Body, d: Delivery, fact: Fact)
    requires ObservationsHold(z, With(body, d, fact).ds, With(body, d, fact).os) && Unlisted(body, d.id)
    ensures ObservationsHold(z, body.ds, body.os)
  {
    hide SourceOf, UniqueBy;
    var more := With(body, d, fact);
    UniqueBySub(ObservationSource, body.os, more.os);
    forall o | o in body.os ensures ObservationHolds(z, body.ds, o) {
      assert ObservationHolds(z, more.ds, o);
      SourceWithout(body.ds, d, o.source, Synchronize, o.payloadHash, z.observationDigest(o), Some(o.receivedAt));
    }
  }

  lemma DeliveriesWithout(z: Primitives, identity: Identity, body: Body, d: Delivery)
    requires DeliveriesHold(z, identity, body.ds + multiset{d})
    ensures DeliveriesHold(z, identity, body.ds)
  {
    UniqueBySub(DeliveryId, body.ds, body.ds + multiset{d});
    hide UniqueBy, Genuine;
  }

  lemma CoverageWithout(body: Body, d: Delivery, fact: Fact, e: Delivery)
    requires Unlisted(body, d.id) && FromDelivery(fact, d.id) && e in body.ds
    requires var more := With(body, d, fact); DeliveryCovered(e, more.rs, more.ms, more.os)
    ensures DeliveryCovered(e, body.rs, body.ms, body.os)
  {
    assert e.id != d.id;
    match e.kind
    case ReviewSubmitted =>
      var more := With(body, d, fact).rs;
      assert forall r :: r in body.rs ==> r in more;
      assert forall r :: r in more && r.source == e.id ==> r in body.rs;
    case ReviewDismissed =>
      assert forall m :: m in With(body, d, fact).ms && m.source == e.id ==> m in body.ms;
    case Synchronize =>
      assert forall o :: o in With(body, d, fact).os && o.source == e.id ==> o in body.os;
  }

  lemma HoldsWithout(z: Primitives, identity: Identity, body: Body, d: Delivery, fact: Fact)
    requires Holds(z, identity, With(body, d, fact)) && Unlisted(body, d.id) && FromDelivery(fact, d.id)
    ensures Holds(z, identity, body)
  {
    hide ReceiptsHold, DismissalsHold, ObservationsHold, DeliveriesHold, DeliveryCovered, Unlisted, FromDelivery;
    var more := With(body, d, fact);
    ReceiptsWithout(z, body, d, fact);
    DismissalsWithout(z, body, d, fact);
    ObservationsWithout(z, body, d, fact);
    DeliveriesWithout(z, identity, body, d);
    forall e | e in body.ds ensures DeliveryCovered(e, body.rs, body.ms, body.os) {
      assert e in more.ds;
      CoverageWithout(body, d, fact, e);
    }
  }

  // ----- one step

  lemma NextBody(z: Primitives, l: Ledger, fact: Fact, d: Delivery, key: SigningKey)
    requires Append(l, fact).Ok? && (fact.ReceiptFact? ==> FindReceipt(l.receipts, fact.receipt.reviewId).None?)
    ensures var next := NextLedger(z, Append(l, fact).value, d, key);
            BodyOf(next) == With(BodyOf(l), d, fact) && next.identity == l.identity &&
            next.snapshot.revision == l.snapshot.revision + 1
  {
    hide Sorting.Sort;
  }

  lemma NextSnapshotValid(z: Primitives, l: Ledger, d: Delivery, key: SigningKey)
    requires Lawful(z) && l.identity.receiver.publicKey == z.publicKey(key)
    ensures SnapshotValid(z, NextLedger(z, l, d, key))
  {
    hide Sorting.Sort;
  }

  /** What the request contributes to a ledger of its identity. */
  ghost predicate Contributes(z: Primitives, g: Gateway, l: Ledger, q: Request, o: Opening, d: Delivery, fact: Fact) {
    && Open(z, g, q) == Ok(o) && o.identity == l.identity
    && DeriveFact(z, g, o.webhook, q.deliveryId, q.receivedAt, o.hash) == Ok(fact)
    && d == SignedDelivery(z, q, o, fact)
  }

  lemma AppendWorks(z: Primitives, l: Ledger, fact: Fact, d: Delivery)
    requires Holds(z, l.identity, With(BodyOf(l), d, fact))
    ensures |l.deliveries| < MAX_LEDGER_DELIVERIES && Append(l, fact).Ok?
    ensures fact.ReceiptFact? ==> FindReceipt(l.receipts, fact.receipt.reviewId).None?
  {
    hide DismissalsHold, ObservationsHold, DeliveryCovered, ReceiptHolds, Genuine;
    var more := With(BodyOf(l), d, fact);
    assert |more.ds| == |l.deliveries| + 1;
    if fact.ReceiptFact? {
      UniqueByAdd(ReviewId, multiset(l.receipts), fact.receipt);
      assert |more.rs| == |l.receipts| + 1;
      FoundIsRecorded(l.receipts, fact.receipt.reviewId);
    }
  }

  lemma FoundIsRecorded(rs: seq<Receipt>, id: nat)
    ensures FindReceipt(rs, id).Some? ==> exists r :: r in multiset(rs) && ReviewId(r) == id
  {
    var found := FindReceipt(rs, id);
    if found.Some? {
      assert found.value in multiset(rs) && ReviewId(found.value) == id;
    }
  }

  lemma AppendedReceiptIsNew(l: Ledger, fact: Fact, id: string)
    requires Append(l, fact).Ok? && Unlisted(BodyOf(l), id) && FromDelivery(fact, id) && fact.ReceiptFact?
    ensures FindReceipt(l.receipts, fact.receipt.reviewId).None?
  {
    var found := FindReceipt(l.receipts, fact.receipt.reviewId);
    if found.Some? {
      assert found.value in multiset(l.receipts);
    }
  }

  /** A new delivery is accepted exactly when the body with it holds and the revision can still grow. */
  lemma NewStep(z: Primitives, g: Gateway, l: Ledger, q: Request, o: Opening, d: Delivery, fact: Fact)
    requires Lawful(z) && Contributes(z, g, l, q, o, d, fact) && Unlisted(BodyOf(l), q.deliveryId)
    ensures var result := IngestNew(z, g, l, q, o);
            && (result.Ok? <==> Holds(z, l.identity, With(BodyOf(l), d, fact)) && l.snapshot.revision < U64_MAX)
            && (result.Ok? ==> && Append(l, fact).Ok?
                               && result.value == NextLedger(z, Append(l, fact).value, d, q.key)
                               && BodyOf(result.value) == With(BodyOf(l), d, fact)
                               && result.value.identity == l.identity && Valid(z, result.value)
                               && result.value.snapshot.revision == l.snapshot.revision + 1)
  {
    DerivedFrom(z, g, q, o);
    AppendKeeps(l, fact);
    hide NextLedger, SnapshotValid, BodyHolds, Lawful, Unlisted, FromDelivery, With, DeriveFact, SignedDelivery;
    var appended := Append(l, fact);
    if appended.Ok? {
      NextSnapshotValid(z, appended.value, d, q.key);
      if fact.ReceiptFact? {
        AppendedReceiptIsNew(l, fact, q.deliveryId);
      }
      NextBody(z, l, fact, d, q.key);
    }
    if Holds(z, l.identity, With(BodyOf(l), d, fact)) {
      AppendWorks(z, l, fact, d);
    }
  }

  lemma AppendKeeps(l: Ledger, fact: Fact)
    ensures Append(l, fact).Ok? ==> Append(l, fact).value.identity == l.identity &&
                                    Append(l, fact).value.snapshot == l.snapshot
  {
  }

  // ----- two steps

  lemma DeliveryOrder()
    ensures Sorting.TotalPreorder(DeliveryLe) && Sorting.TotalPreorder(ObservationLe)
  {
    forall x: string, y: string ensures StringLe(x, y) || StringLe(y, x) {
      StringLeTotal(x, y);
    }
    forall x: string, y: string, u: string | StringLe(x, y) && StringLe(y, u) ensures StringLe(x, u) {
      StringLeTransitive(x, y, u);
    }
    hide StringLe;
  }

  lemma DismissalOrder()
    ensures Sorting.TotalPreorder(DismissalLe) && Sorting.TotalPreorder(ReceiptLe)
  {
    forall x: string, y: string ensures StringLe(x, y) || StringLe(y, x) {
      StringLeTotal(x, y);
    }
    forall x: string, y: string, u: string | StringLe(x, y) && StringLe(y, u) ensures StringLe(x, u) {
      StringLeTransitive(x, y, u);
    }
    hide StringLe;
  }

  lemma KeysApart(z: Primitives, identity: Identity, body: Body)
    requires Holds(z, identity, body)
    ensures Sorting.KeysDiffer(DeliveryLe, body.ds) && Sorting.KeysDiffer(ReceiptLe, body.rs)
    ensures Sorting.KeysDiffer(DismissalLe, body.ms) && Sorting.KeysDiffer(ObservationLe, body.os)
  {
    hide DeliveryCovered, ReceiptHolds, DismissalHolds, ObservationHolds, Genuine;
    forall x: string, y: string | StringLe(x, y) && StringLe(y, x) ensures x == y {
      StringLeAntisymmetric(x, y);
    }
    hide StringLe;
    forall x, y | x in body.ds && y in body.ds && DeliveryLe(x, y) && DeliveryLe(y, x) ensures x == y {
      assert DeliveryId(x) == DeliveryId(y);
    }
    forall x, y | x in body.rs && y in body.rs && ReceiptLe(x, y) && ReceiptLe(y, x) ensures x == y {
      assert ReviewId(x) == ReviewId(y);
    }
    forall x, y | x in body.ms && y in body.ms && DismissalLe(x, y) && DismissalLe(y, x) ensures x == y {
      assert DismissalSource(x) == DismissalSource(y);
    }
    forall x, y | x in body.os && y in body.os && ObservationLe(x, y) && ObservationLe(y, x) ensures x == y {
      assert ObservationSource(x) == ObservationSource(y);
    }
  }

  /** Sorting forgets the order in which records arrived. */
  lemma SortedAlike(z: Primitives, l: Ledger, r: Ledger)
    requires BodyOf(l) == BodyOf(r) && Holds(z, l.identity, BodyOf(l)) && l.identity == r.identity
    ensures Sorted(l).deliveries == Sorted(r).deliveries && Sorted(l).receipts == Sorted(r).receipts
    ensures Sorted(l).dismissals == Sorted(r).dismissals && Sorted(l).observations == Sorted(r).observations
  {
    KeysApart(z, l.identity, BodyOf(l));
    DeliveryOrder();
    DismissalOrder();
    hide Holds, Sorting.TotalPreorder, Sorting.KeysDiffer, Sorting.Sort;
    Sorting.SortCanonical(DeliveryLe, l.deliveries, r.deliveries);
    Sorting.SortCanonical(ReceiptLe, l.receipts, r.receipts);
    Sorting.SortCanonical(DismissalLe, l.dismissals, r.dismissals);
    Sorting.SortCanonical(ObservationLe, l.observations, r.observations);
  }

  lemma NextAlike(z: Primitives, l: Ledger, d: Delivery, r: Ledger, e: Delivery, key: SigningKey)
    requires l.identity == r.identity && l.snapshot.revision == r.snapshot.revision
    requires BodyOf(l.(deliveries := l.deliveries + [d])) == BodyOf(r.(deliveries := r.deliveries + [e]))
    requires Holds(z, l.identity, BodyOf(l.(deliveries := l.deliveries + [d])))
    ensures NextLedger(z, l, d, key) == NextLedger(z, r, e, key)
  {
    hide Holds, BodyOf, Sorted, Resigned;
    var x, y := l.(deliveries := l.deliveries + [d]), r.(deliveries := r.deliveries + [e]);
    SortedAlike(z, x, y);
    SortedKeeps(x);
    SortedKeeps(y);
    ResignedAlike(z, Sorted(x), Sorted(y), l.snapshot.revision + 1, key);
  }

  lemma SortedKeeps(l: Ledger)
    ensures Sorted(l).identity == l.identity && Sorted(l).snapshot == l.snapshot
  {
    hide Sorting.Sort;
  }

  lemma ResignedAlike(z: Primitives, l: Ledger, r: Ledger, revision: nat, key: SigningKey)
    requires l.identity == r.identity && l.deliveries == r.deliveries && l.receipts == r.receipts
    requires l.dismissals == r.dismissals && l.observations == r.observations
    ensures Resigned(z, l, revision, key) == Resigned(z, r, revision, key)
  {
  }

  lemma AppendedBody(l: Ledger, fact: Fact, d: Delivery)
    requires Append(l, fact).Ok? && (fact.ReceiptFact? ==> FindReceipt(l.receipts, fact.receipt.reviewId).None?)
    ensures var a := Append(l, fact).value;
            BodyOf(a.(deliveries := a.deliveries + [d])) == With(BodyOf(l), d, fact)
  {
  }

  ghost function NewTwice(z: Primitives, g: Gateway, l: Ledger, q: Request, o: Opening, p: Request,
                          n: Opening): Option<Ledger> {
    match IngestNew(z, g, l, q, o)
    case Err(_) => None
    case Ok(next) =>
      match IngestNew(z, g, next, p, n)
      case Err(_) => None
      case Ok(last) => Some(last)
  }

  /** Two new deliveries succeed together exactly when the body with both holds, whichever comes first. */
  lemma NewTwiceWorks(z: Primitives, g: Gateway, l: Ledger, q: Request, o: Opening, d: Delivery, fact: Fact,
                      p: Request, n: Opening, e: Delivery, other: Fact)
    requires Lawful(z) && q.deliveryId != p.deliveryId
    requires Contributes(z, g, l, q, o, d, fact) && Unlisted(BodyOf(l), q.deliveryId)
    requires Contributes(z, g, l, p, n, e, other) && Unlisted(BodyOf(l), p.deliveryId)
    ensures var both := With(With(BodyOf(l), d, fact), e, other);
            var result := NewTwice(z, g, l, q, o, p, n);
            && (result.Some? <==> Holds(z, l.identity, both) && l.snapshot.revision + 1 < U64_MAX)
            && (result.Some? ==>
                  && IngestNew(z, g, l, q, o).Ok?
                  && var next := IngestNew(z, g, l, q, o).value;
                  && Append(next, other).Ok? && result.value == NextLedger(z, Append(next, other).value, e, p.key)
                  && next.identity == l.identity && next.snapshot.revision == l.snapshot.revision + 1
                  && Append(next, other).value.identity == l.identity
                  && Append(next, other).value.snapshot.revision == l.snapshot.revision + 1
                  && (other.ReceiptFact? ==> FindReceipt(next.receipts, other.receipt.reviewId).None?)
                  && BodyOf(next) == With(BodyOf(l), d, fact))
  {
    var both := With(With(BodyOf(l), d, fact), e, other);
    DerivedFrom(z, g, q, o);
    DerivedFrom(z, g, p, n);
    SignedId(z, q, o, fact);
    SignedId(z, p, n, other);
    UnlistedWith(BodyOf(l), p.deliveryId, d, fact);
    hide IngestNew, Holds, Unlisted, NextLedger, Valid, With, Lawful, Open, DeriveFact, SignedDelivery, FromDelivery;
    NewStep(z, g, l, q, o, d, fact);
    if Holds(z, l.identity, both) {
      HoldsWithout(z, l.identity, With(BodyOf(l), d, fact), e, other);
    }
    if IngestNew(z, g, l, q, o).Ok? {
      var next := IngestNew(z, g, l, q, o).value;
      NewStep(z, g, next, p, n, e, other);
      AppendKeeps(next, other);
      if IngestNew(z, g, next, p, n).Ok? && other.ReceiptFact? {
        AppendWorks(z, next, other, e);
      }
    }
  }

  lemma SignedId(z: Primitives, q: Request, o: Opening, fact: Fact)
    ensures SignedDelivery(z, q, o, fact).id == q.deliveryId
  {
  }

  lemma OneKey(z: Primitives, g: Gateway, l: Ledger, q: Request, o: Opening, p: Request, n: Opening)
    requires Lawful(z) && Open(z, g, q) == Ok(o) && Open(z, g, p) == Ok(n) && o.identity == n.identity
    ensures q.key == p.key
  {
  }

  lemma NewCommute(z: Primitives, g: Gateway, l: Ledger, q: Request, o: Opening, p: Request, n: Opening)
    requires Lawful(z) && q.deliveryId != p.deliveryId
    requires Open(z, g, q) == Ok(o) && Open(z, g, p) == Ok(n) && o.identity == l.identity == n.identity
    requires Unlisted(BodyOf(l), q.deliveryId) && Unlisted(BodyOf(l), p.deliveryId)
    ensures NewTwice(z, g, l, q, o, p, n) == NewTwice(z, g, l, p, n, q, o)
  {
    hide Unlisted, Holds, NextLedger, With, Lawful, Open, SignedDelivery, Append, Valid, SubmittedFact, DismissedFact;
    var f := DeriveFact(z, g, o.webhook, q.deliveryId, q.receivedAt, o.hash);
    var h := DeriveFact(z, g, n.webhook, p.deliveryId, p.receivedAt, n.hash);
    if f.Ok? && h.Ok? {
      var d, e := SignedDelivery(z, q, o, f.value), SignedDelivery(z, p, n, h.value);
      hide IngestNew, DeriveFact;
      NewTwiceWorks(z, g, l, q, o, d, f.value, p, n, e, h.value);
      NewTwiceWorks(z, g, l, p, n, e, h.value, q, o, d, f.value);
      WithCommutes(BodyOf(l), d, f.value, e, h.value);
      OneKey(z, g, l, q, o, p, n);
      if NewTwice(z, g, l, q, o, p, n).Some? {
        var first, second := IngestNew(z, g, l, q, o).value, IngestNew(z, g, l, p, n).value;
        AppendedBody(first, h.value, e);
        AppendedBody(second, f.value, d);
        NextAlike(z, Append(first, h.value).value, e, Append(second, f.value).value, d, q.key);
      }
    }
  }

  // ----- the theorems

  /** A ledger that went through one ingest can go through the next. */
  ghost function IntoTwice(z: Primitives, g: Gateway, l: Ledger, q: Request, o: Opening, p: Request,
                           n: Opening): Option<Ledger> {
    match IngestInto(z, g, l, q, o)
    case Err(_) => None
    case Ok(first) =>
      match IngestInto(z, g, first.0, p, n)
      case Err(_) => None
      case Ok(second) => Some(second.0)
  }

  lemma FoundIsUnique(ds: seq<Delivery>, id: string, d: Delivery)
    requires UniqueBy(DeliveryId, multiset(ds)) && d in multiset(ds) && d.id == id
    ensures FindDelivery(ds, id) == Some(d)
  {
    var found := FindDelivery(ds, id);
    assert found.Some? && DeliveryId(found.value) == DeliveryId(d);
  }

  lemma ValidIsUnique(z: Primitives, l: Ledger)
    requires Valid(z, l)
    ensures UniqueBy(DeliveryId, multiset(l.deliveries))
  {
  }

  /** What is recorded about other deliveries does not change. */
  lemma StillFound(z: Primitives, g: Gateway, l: Ledger, q: Request, o: Opening, id: string)
    requires Lawful(z) && Open(z, g, q) == Ok(o) && o.identity == l.identity && Unlisted(BodyOf(l), q.deliveryId)
    requires id != q.deliveryId && IngestNew(z, g, l, q, o).Ok?
    ensures FindDelivery(l.deliveries, id) == FindDelivery(IngestNew(z, g, l, q, o).value.deliveries, id)
    ensures IngestNew(z, g, l, q, o).value.identity == l.identity && Valid(z, IngestNew(z, g, l, q, o).value)
  {
    hide Unlisted, Holds, NextLedger, Lawful, Open, SignedDelivery;
    hide Append, Valid, SubmittedFact, DismissedFact, UniqueBy;
    var fact := DeriveFact(z, g, o.webhook, q.deliveryId, q.receivedAt, o.hash).value;
    var d := SignedDelivery(z, q, o, fact);
    var next := IngestNew(z, g, l, q, o).value;
    hide IngestNew, DeriveFact;
    NewStep(z, g, l, q, o, d, fact);
    SignedId(z, q, o, fact);
    ValidIsUnique(z, next);
    assert multiset(next.deliveries) == multiset(l.deliveries) + multiset{d};
    var found := FindDelivery(l.deliveries, id);
    if found.Some? {
      assert found.value in multiset(next.deliveries);
      FoundIsUnique(next.deliveries, id, found.value);
    } else {
      forall e | e in next.deliveries ensures e.id != id {
        assert e in multiset(next.deliveries);
      }
    }
  }

  lemma MixedCommute(z: Primitives, g: Gateway, l: Ledger, q: Request, o: Opening, p: Request, n: Opening)
    requires Lawful(z) && q.deliveryId != p.deliveryId && o.identity == l.identity == n.identity
    requires Open(z, g, q) == Ok(o) && Open(z, g, p) == Ok(n)
    requires FindDelivery(l.deliveries, q.deliveryId).Some? && FindDelivery(l.deliveries, p.deliveryId).None?
    requires Unlisted(BodyOf(l), p.deliveryId)
    ensures IntoTwice(z, g, l, q, o, p, n) == IntoTwice(z, g, l, p, n, q, o)
  {
    hide IngestNew, Unlisted, Lawful, Open, FindDelivery;
    if IngestNew(z, g, l, p, n).Ok? {
      StillFound(z, g, l, p, n, q.deliveryId);
    }
  }

  lemma BothNewCommute(z: Primitives, g: Gateway, l: Ledger, q: Request, o: Opening, p: Request, n: Opening)
    requires Lawful(z) && q.deliveryId != p.deliveryId && o.identity == l.identity == n.identity
    requires Open(z, g, q) == Ok(o) && Open(z, g, p) == Ok(n)
    requires FindDelivery(l.deliveries, q.deliveryId).None? && FindDelivery(l.deliveries, p.deliveryId).None?
    requires Unlisted(BodyOf(l), q.deliveryId) && Unlisted(BodyOf(l), p.deliveryId)
    ensures IntoTwice(z, g, l, q, o, p, n) == IntoTwice(z, g, l, p, n, q, o)
  {
    hide IngestNew, Unlisted, Lawful, Open, FindDelivery;
    NewCommute(z, g, l, q, o, p, n);
    if IngestNew(z, g, l, q, o).Ok? {
      StillFound(z, g, l, q, o, p.deliveryId);
    }
    if IngestNew(z, g, l, p, n).Ok? {
      StillFound(z, g, l, p, n, q.deliveryId);
    }
  }

  /** From a ledger in which unknown deliveries are unlisted, the order of two deliveries does not matter. */
  lemma IntoCommutes(z: Primitives, g: Gateway, l: Ledger, q: Request, o: Opening, p: Request, n: Opening)
    requires Lawful(z) && q.deliveryId != p.deliveryId && o.identity == l.identity == n.identity
    requires Open(z, g, q) == Ok(o) && Open(z, g, p) == Ok(n)
    requires forall id :: FindDelivery(l.deliveries, id).None? ==> Unlisted(BodyOf(l), id)
    ensures IntoTwice(z, g, l, q, o, p, n) == IntoTwice(z, g, l, p, n, q, o)
  {
    hide IngestNew, Unlisted, Lawful, Open, FindDelivery;
    var known, other := FindDelivery(l.deliveries, q.deliveryId).Some?, FindDelivery(l.deliveries, p.deliveryId).Some?;
    if known && !other {
      MixedCommute(z, g, l, q, o, p, n);
    } else if other && !known {
      MixedCommute(z, g, l, p, n, q, o);
    } else if !known && !other {
      BothNewCommute(z, g, l, q, o, p, n);
    }
  }

  /** The ledger after two deliveries, if both succeed. */
  ghost function Twice(z: Primitives, g: Gateway, ledger: Option<Ledger>, q: Request, p: Request): Option<Ledger> {
    match IngestResult(z, g, ledger, q)
    case Err(_) => None
    case Ok(first) =>
      match IngestResult(z, g, Some(first.0), p)
      case Err(_) => None
      case Ok(second) => Some(second.0)
  }

  lemma IntoKeepsIdentity(z: Primitives, g: Gateway, l: Ledger, q: Request, o: Opening)
    requires IngestInto(z, g, l, q, o).Ok?
    ensures IngestInto(z, g, l, q, o).value.0.identity == l.identity
    ensures FindDelivery(l.deliveries, q.deliveryId).None? ==> Valid(z, IngestInto(z, g, l, q, o).value.0)
    ensures FindDelivery(l.deliveries, q.deliveryId).Some? ==> IngestInto(z, g, l, q, o).value.0 == l
  {
    hide IngestNew, Valid, FindDelivery;
    NewKeepsIdentity(z, g, l, q, o);
  }

  lemma NewKeepsIdentity(z: Primitives, g: Gateway, l: Ledger, q: Request, o: Opening)
    ensures var result := IngestNew(z, g, l, q, o);
            result.Ok? ==> result.value.identity == l.identity && Valid(z, result.value)
  {
    hide Valid, SignedDelivery, DeriveFact, Sorting.Sort;
  }

  ghost function StartOf(ledger: Option<Ledger>, o: Opening): Ledger {
    match ledger
    case None => Fresh(o.identity)
    case Some(l) => l
  }

  lemma TwiceIsInto(z: Primitives, g: Gateway, ledger: Option<Ledger>, q: Request, o: Opening, p: Request, n: Opening)
    requires Open(z, g, q) == Ok(o) && Open(z, g, p) == Ok(n)
    ensures var l := StartOf(ledger, o);
            Twice(z, g, ledger, q, p) ==
            if (ledger.Some? ==> Valid(z, l)) && l.identity == o.identity && l.identity == n.identity
            then IntoTwice(z, g, l, q, o, p, n) else None
  {
    hide Valid, IngestInto, Open;
    var l := StartOf(ledger, o);
    if IngestInto(z, g, l, q, o).Ok? {
      IntoKeepsIdentity(z, g, l, q, o);
    }
  }

  /** Two deliveries with different ids succeed in one order exactly when they succeed in the other, and leave the very
      same ledger: records, revision, digest and signature. */
  lemma IngestConfluent(z: Primitives, g: Gateway, ledger: Option<Ledger>, q: Request, p: Request)
    requires Lawful(z) && q.deliveryId != p.deliveryId
    ensures Twice(z, g, ledger, q, p) == Twice(z, g, ledger, p, q)
  {
    hide Valid, IngestInto, Open, Lawful, IntoTwice, Unlisted;
    if Open(z, g, q).Ok? && Open(z, g, p).Ok? {
      var o, n := Open(z, g, q).value, Open(z, g, p).value;
      TwiceIsInto(z, g, ledger, q, o, p, n);
      TwiceIsInto(z, g, ledger, p, n, q, o);
      if o.identity == n.identity && (ledger.Some? ==> Valid(z, ledger.value) && ledger.value.identity == o.identity) {
        StartUnlisted(z, ledger, o);
        IntoCommutes(z, g, StartOf(ledger, o), q, o, p, n);
      }
    }
  }

  lemma StartUnlisted(z: Primitives, ledger: Option<Ledger>, o: Opening)
    requires ledger.Some? ==> Valid(z, ledger.value)
    ensures forall id :: FindDelivery(StartOf(ledger, o).deliveries, id).None? ==>
              Unlisted(BodyOf(StartOf(ledger, o)), id)
  {
    hide BodyValid, SnapshotValid;
    forall id | FindDelivery(StartOf(ledger, o).deliveries, id).None? ensures Unlisted(BodyOf(StartOf(ledger, o)), id) {
      if ledger.Some? {
        UnknownUnlisted(z, ledger.value, id);
      }
    }
  }

  /** The ledger has recorded the delivery of this request. */
  ghost predicate Taken(z: Primitives, g: Gateway, l: Ledger, q: Request) {
    Open(z, g, q).Ok? && Valid(z, l) && l.identity == Open(z, g, q).value.identity &&
    match FindDelivery(l.deliveries, q.deliveryId)
    case None => false
    case Some(d) => d.kind == Open(z, g, q).value.kind && d.payloadHash == Open(z, g, q).value.hash
  }

  lemma TakenAfter(z: Primitives, g: Gateway, ledger: Option<Ledger>, q: Request)
    requires Lawful(z) && IngestResult(z, g, ledger, q).Ok?
    ensures Taken(z, g, IngestResult(z, g, ledger, q).value.0, q)
  {
    hide Valid, IngestInto, Open, Lawful, FindDelivery, Unlisted;
    var o := Open(z, g, q).value;
    IntoKeepsIdentity(z, g, StartOf(ledger, o), q, o);
    StartUnlisted(z, ledger, o);
    TakenIsFound(z, g, StartOf(ledger, o), q, o);
    ResultIsValid(z, g, ledger, q);
  }

  /** A recorded delivery stays recorded, whatever is taken in after it. */
  lemma TakenKept(z: Primitives, g: Gateway, l: Ledger, q: Request, p: Request)
    requires Lawful(z) && Taken(z, g, l, q) && IngestResult(z, g, Some(l), p).Ok?
    ensures Taken(z, g, IngestResult(z, g, Some(l), p).value.0, q)
  {
    hide BodyValid, SnapshotValid, IngestNew, Open, Lawful, FindDelivery, Unlisted;
    var n := Open(z, g, p).value;
    IntoKeepsIdentity(z, g, l, p, n);
    if FindDelivery(l.deliveries, p.deliveryId).None? {
      UnknownUnlisted(z, l, p.deliveryId);
      StillFound(z, g, l, p, n, q.deliveryId);
    }
  }

  /** A delivery that has been taken in is recognised in every ledger that has recorded it: the same kind and payload
      change nothing, anything else under its id is refused. */
  lemma IngestIdempotent(z: Primitives, g: Gateway, l: Ledger, q: Request, p: Request)
    requires Taken(z, g, l, q) && p.deliveryId == q.deliveryId
    requires Open(z, g, p).Ok? && Open(z, g, p).value.identity == l.identity
    ensures var o, n := Open(z, g, q).value, Open(z, g, p).value;
            IngestResult(z, g, Some(l), p) ==
            if n.kind == o.kind && n.hash == o.hash then Ok((l, Duplicate)) else Err(DeliveryReused)
  {
    hide Valid, IngestInto, Open, FindDelivery;
    FoundAgain(z, g, l, p, Open(z, g, p).value);
  }

  lemma FoundAgain(z: Primitives, g: Gateway, l: Ledger, p: Request, n: Opening)
    requires FindDelivery(l.deliveries, p.deliveryId).Some?
    ensures var d := FindDelivery(l.deliveries, p.deliveryId).value;
            IngestInto(z, g, l, p, n) ==
            if d.kind == n.kind && d.payloadHash == n.hash then Ok((l, Duplicate)) else Err(DeliveryReused)
  {
  }

  lemma TakenIsFound(z: Primitives, g: Gateway, l: Ledger, q: Request, o: Opening)
    requires Lawful(z) && Open(z, g, q) == Ok(o) && o.identity == l.identity && IngestInto(z, g, l, q, o).Ok?
    requires forall id :: FindDelivery(l.deliveries, id).None? ==> Unlisted(BodyOf(l), id)
    ensures var found := FindDelivery(IngestInto(z, g, l, q, o).value.0.deliveries, q.deliveryId);
            found.Some? && found.value.kind == o.kind && found.value.payloadHash == o.hash
  {
    hide Unlisted, Holds, NextLedger, Lawful, Open, Append, Valid, SubmittedFact, DismissedFact, UniqueBy;
    if FindDelivery(l.deliveries, q.deliveryId).None? {
      var fact := DeriveFact(z, g, o.webhook, q.deliveryId, q.receivedAt, o.hash).value;
      var d := SignedDelivery(z, q, o, fact);
      NewStep(z, g, l, q, o, d, fact);
      var next := IngestNew(z, g, l, q, o).value;
      ValidIsUnique(z, next);
      assert d in multiset(next.deliveries);
      FoundIsUnique(next.deliveries, q.deliveryId, d);
    }
  }

  lemma ResultIsValid(z: Primitives, g: Gateway, ledger: Option<Ledger>, q: Request)
    requires IngestResult(z, g, ledger, q).Ok?
    ensures Valid(z, IngestResult(z, g, ledger, q).value.0)
  {
    hide Valid, IngestNew, Open;
    var o := Open(z, g, q).value;
    IntoKeepsIdentity(z, g, StartOf(ledger, o), q, o);
  }
}
