/** Taking one webhook request into the ledger, and what that does to every field of the records. */
module Intake {
  import opened Wrappers
  import opened Strings
  import opened Uniqueness
  import opened Ledgers
  import opened Ingest
  import opened Confluence
  import Sorting

  // ----- what a request says

  /** An authentic request whose payload decodes to an admissible webhook of this kind. */
  ghost predicate Arrives(g: Gateway, q: Request, w: Webhook, kind: WebhookKind) {
    && g.authentic(q) && g.decode(q.eventName, q.payload) == Some(w) && g.validPayload(w)
    && match kind
       case ReviewSubmitted => w.ReviewHook? && w.action == "submitted"
       case ReviewDismissed => w.ReviewHook? && w.action == "dismissed"
       case Synchronize => w.SynchronizeHook? && w.action == "synchronize"
  }

  /** The identity the request speaks for. */
  ghost predicate SpeaksFor(z: Primitives, q: Request, w: Webhook, identity: Identity) {
    && identity.providerUrl == q.providerUrl
    && identity.repository == w.repository && identity.pullRequest == w.pullRequest
    && identity.receiver.keyId == q.keyId && identity.receiver.publicKey == z.publicKey(q.key)
  }

  ghost predicate ByHuman(v: Review, id: nat, nodeId: string, login: string) {
    v.user.Some? && v.user.value.accountType == "User" && v.user.value.id == id && v.user.value.nodeId == nodeId &&
    v.user.value.login == login
  }

  /** The receipt of a completed review: every field is the payload's, and the digest is that of the receipt itself. */
  ghost predicate ReceiptOf(z: Primitives, g: Gateway, q: Request, v: Review, r: Receipt) {
    && (r.state == Approved <==> SpelledLike(v.state, "approved"))
    && (r.state == ChangesRequested <==> SpelledLike(v.state, "changes_requested"))
    && ByHuman(v, r.reviewerId, r.reviewerNodeId, r.reviewerLogin)
    && r.reviewId == v.id && r.reviewNodeId == v.nodeId
    && Some(r.commitId) == v.commitId && Some(r.submittedAt) == v.submittedAt
    && r.htmlUrl == v.htmlUrl && r.association == v.association
    && r.source == q.deliveryId && r.payloadHash == g.hash(q.payload)
    && z.validReceipt(r.(receiptHash := "")) && r.receiptHash == z.receiptDigest(r.(receiptHash := ""))
  }

  ghost predicate DismissalOf(z: Primitives, g: Gateway, q: Request, v: Review, d: Dismissal) {
    && SpelledLike(v.state, "dismissed")
    && ByHuman(v, d.reviewerId, d.reviewerNodeId, d.reviewerLogin)
    && d.reviewId == v.id && d.commitId == v.commitId && d.submittedAt == v.submittedAt
    && d.source == q.deliveryId && d.receivedAt == q.receivedAt && d.payloadHash == g.hash(q.payload)
    && z.validDismissal(d)
  }

  ghost predicate ObservationOf(z: Primitives, g: Gateway, q: Request, w: Webhook, o: Observation)
    requires w.SynchronizeHook?
  {
    && o.beforeCommit == w.beforeCommit && g.isSha1(w.beforeCommit)
    && o.headCommit == w.afterCommit == w.headCommit && g.isSha1(w.afterCommit)
    && o.baseCommit == w.baseCommit && g.isSha1(w.baseCommit)
    && o.source == q.deliveryId && o.receivedAt == q.receivedAt && o.payloadHash == g.hash(q.payload)
    && z.validObservation(o)
  }

  /** Which fact the webhook carries; a submitted comment carries none. */
  ghost predicate Carries(z: Primitives, g: Gateway, q: Request, w: Webhook, kind: WebhookKind, fact: Fact)
    requires Arrives(g, q, w, kind)
  {
    match fact
    case ReceiptFact(r) => kind == ReviewSubmitted && ReceiptOf(z, g, q, w.review, r)
    case IgnoredReview => kind == ReviewSubmitted && SpelledLike(w.review.state, "commented")
    case DismissalFact(d) => kind == ReviewDismissed && DismissalOf(z, g, q, w.review, d)
    case ObservationFact(o) => kind == Synchronize && ObservationOf(z, g, q, w, o)
  }

  // ----- what it does to a ledger

  /** The given ledger, which must be sound, or an empty one. */
  ghost predicate Begins(z: Primitives, ledger: Option<Ledger>, before: Ledger) {
    match ledger
    case Some(l) => before == l && Sound(z, l)
    case None =>
      && before.deliveries == [] && before.receipts == [] && before.dismissals == [] && before.observations == []
      && before.snapshot == Snapshot(0, 0, 0, 0, 0, "", "")
  }

  /** One record more, the one that carries the fact, or none for a comment; all others are kept. */
  ghost predicate Grown(before: Ledger, after: Ledger, fact: Fact) {
    && multiset(after.receipts) == (if fact.ReceiptFact? then multiset(before.receipts) + multiset{fact.receipt}
                                    else multiset(before.receipts))
    && multiset(after.dismissals) == (if fact.DismissalFact? then multiset(before.dismissals) + multiset{fact.dismissal}
                                      else multiset(before.dismissals))
    && multiset(after.observations) == (if fact.ObservationFact?
                                        then multiset(before.observations) + multiset{fact.observation}
                                        else multiset(before.observations))
  }

  /** The delivery of the request, with the digest of its fact, signed for the ledger. */
  ghost predicate Delivered(z: Primitives, g: Gateway, q: Request, kind: WebhookKind, fact: Fact, identity: Identity,
                            d: Delivery)
  {
    && d.id == q.deliveryId && d.kind == kind && d.receivedAt == q.receivedAt && d.payloadHash == g.hash(q.payload)
    && d.factHash == (match fact
                      case ReceiptFact(r) => Some(z.receiptDigest(r))
                      case DismissalFact(m) => Some(z.dismissalDigest(m))
                      case ObservationFact(o) => Some(z.observationDigest(o))
                      case IgnoredReview => None)
    && d.signature == z.signDelivery(q.key, identity, d.(signature := ""))
  }

  /** Strictly increasing ids, reviews, reviews and sources, sources. */
  ghost predicate InOrder(l: Ledger) {
    && (forall i, j :: 0 <= i < j < |l.deliveries| ==> Precedes(l.deliveries[i].id, l.deliveries[j].id))
    && (forall i, j :: 0 <= i < j < |l.receipts| ==> l.receipts[i].reviewId < l.receipts[j].reviewId)
    && (forall i, j :: 0 <= i < j < |l.dismissals| ==>
                         var m, n := l.dismissals[i], l.dismissals[j];
                         m.reviewId < n.reviewId || (m.reviewId == n.reviewId && Precedes(m.source, n.source)))
    && (forall i, j :: 0 <= i < j < |l.observations| ==> Precedes(l.observations[i].source, l.observations[j].source))
  }

  /** The next revision, with counts and digest of the new lists, signed anew. */
  ghost predicate Renewed(z: Primitives, q: Request, before: Ledger, after: Ledger) {
    var s := after.snapshot;
    && before.snapshot.revision < 0xFFFF_FFFF_FFFF_FFFF && s.revision == before.snapshot.revision + 1
    && s.deliveryCount == |after.deliveries| && s.receiptCount == |after.receipts|
    && s.dismissalCount == |after.dismissals| && s.observationCount == |after.observations|
    && s.bodyHash == z.bodyDigest(after.identity, after.deliveries, after.receipts, after.dismissals,
                                  after.observations)
    && s.signature == z.signSnapshot(q.key, after.identity, s.(signature := ""))
  }

  /** Everything about taking in a new delivery. */
  ghost predicate TakesIn(z: Primitives, g: Gateway, q: Request, kind: WebhookKind, before: Ledger, after: Ledger,
                          fact: Fact, d: Delivery)
  {
    && (forall k :: 0 <= k < |before.deliveries| ==> before.deliveries[k].id != q.deliveryId)
    && |before.deliveries| < 10_000
    && Delivered(z, g, q, kind, fact, before.identity, d)
    && multiset(after.deliveries) == multiset(before.deliveries) + multiset{d}
    && Grown(before, after, fact) && InOrder(after) && Renewed(z, q, before, after)
    && after.identity == before.identity && Sound(z, after)
  }

  ghost predicate Applies(z: Primitives, g: Gateway, ledger: Option<Ledger>, q: Request, after: Ledger) {
    exists w, kind, before, fact, d ::
      && Arrives(g, q, w, kind) && Begins(z, ledger, before) && SpeaksFor(z, q, w, before.identity)
      && Carries(z, g, q, w, kind, fact) && TakesIn(z, g, q, kind, before, after, fact, d)
  }

  /** The request is recorded already, with the same kind and the same payload. */
  ghost predicate Repeats(z: Primitives, g: Gateway, ledger: Option<Ledger>, q: Request, after: Ledger) {
    exists w, kind, k ::
      && Arrives(g, q, w, kind) && ledger == Some(after) && Sound(z, after) && SpeaksFor(z, q, w, after.identity)
      && 0 <= k < |after.deliveries| && after.deliveries[k].id == q.deliveryId
      && after.deliveries[k].kind == kind && after.deliveries[k].payloadHash == g.hash(q.payload)
  }

  // ----- from a request to a fact

  lemma OpenExactly(z: Primitives, g: Gateway, q: Request, o: Opening)
    ensures Open(z, g, q) == Ok(o) <==>
            Arrives(g, q, o.webhook, o.kind) && SpeaksFor(z, q, o.webhook, o.identity) && o.hash == g.hash(q.payload)
  {
    assert "submitted"[0] != "dismissed"[0];
  }

  lemma SpelledAs(s: string, word: string)
    requires forall k :: 0 <= k < |word| ==> !('A' <= word[k] <= 'Z')
    ensures LowerAscii(s) == word <==> SpelledLike(s, word)
  {
    LowerAlready(word);
    LowerAsciiExactly(s, word);
  }

  lemma StatesDiffer(state: string)
    ensures LowerAscii(state) == "approved" <==> SpelledLike(state, "approved")
    ensures LowerAscii(state) == "changes_requested" <==> SpelledLike(state, "changes_requested")
    ensures LowerAscii(state) == "commented" <==> SpelledLike(state, "commented")
    ensures LowerAscii(state) == "dismissed" <==> SpelledLike(state, "dismissed")
    ensures "approved" != "changes_requested" && "approved" != "commented" && "commented" != "changes_requested"
  {
    SpelledAs(state, "approved");
    SpelledAs(state, "changes_requested");
    SpelledAs(state, "commented");
    SpelledAs(state, "dismissed");
    assert "approved"[0] != "changes_requested"[0] && "approved"[0] != "commented"[0];
    assert "commented"[1] != "changes_requested"[1];
  }

  lemma SubmittedExactly(z: Primitives, g: Gateway, q: Request, v: Review, fact: Fact)
    ensures SubmittedFact(z, v, q.deliveryId, g.hash(q.payload)) == Ok(fact) <==>
            match fact
            case ReceiptFact(r) => ReceiptOf(z, g, q, v, r)
            case IgnoredReview => SpelledLike(v.state, "commented")
            case _ => false
  {
    StatesDiffer(v.state);
    hide SpelledLike, LowerAscii;
    if fact.ReceiptFact? && ReceiptOf(z, g, q, v, fact.receipt) {
      var r := fact.receipt;
      var user := v.user.value;
      assert r.(receiptHash := "") ==
             Receipt(v.id, v.nodeId, user.id, user.nodeId, user.login, r.state, v.commitId.value, v.submittedAt.value,
                     v.htmlUrl, v.association, q.deliveryId, g.hash(q.payload), "");
    }
  }

  lemma DismissedExactly(z: Primitives, g: Gateway, q: Request, v: Review, fact: Fact)
    ensures DismissedFact(z, v, q.deliveryId, q.receivedAt, g.hash(q.payload)) == Ok(fact) <==>
            fact.DismissalFact? && DismissalOf(z, g, q, v, fact.dismissal)
  {
    StatesDiffer(v.state);
    hide SpelledLike, LowerAscii;
  }

  /** The derived fact, field by field. */
  lemma FactExactly(z: Primitives, g: Gateway, q: Request, w: Webhook, kind: WebhookKind, fact: Fact)
    requires Arrives(g, q, w, kind)
    ensures DeriveFact(z, g, w, q.deliveryId, q.receivedAt, g.hash(q.payload)) == Ok(fact) <==>
            Carries(z, g, q, w, kind, fact)
  {
    hide SubmittedFact, DismissedFact, ReceiptOf, DismissalOf, SpelledLike;
    assert "submitted"[0] != "dismissed"[0];
    if w.ReviewHook? {
      SubmittedExactly(z, g, q, w.review, fact);
      DismissedExactly(z, g, q, w.review, fact);
    }
  }

  lemma SignedExactly(z: Primitives, g: Gateway, q: Request, o: Opening, fact: Fact, d: Delivery)
    requires o.hash == g.hash(q.payload)
    ensures d == SignedDelivery(z, q, o, fact) <==> Delivered(z, g, q, o.kind, fact, o.identity, d)
  {
  }

  // ----- from a fact to a ledger

  lemma DistinctInOrder(z: Primitives, l: Ledger)
    requires Sound(z, l)
    requires Sorting.Sorted(DeliveryLe, l.deliveries) && Sorting.Sorted(ReceiptLe, l.receipts)
    requires Sorting.Sorted(DismissalLe, l.dismissals) && Sorting.Sorted(ObservationLe, l.observations)
    ensures InOrder(l)
  {
    hide Announced, Covered, SoundSnapshot, Consistent;
    forall x: string, y: string ensures StringLe(x, y) <==> x == y || Precedes(x, y) {
      StringLeExactly(x, y);
    }
    hide StringLe, Precedes;
  }

  lemma InOrderIsSorted(l: Ledger)
    requires InOrder(l)
    ensures Sorting.Sorted(DeliveryLe, l.deliveries) && Sorting.Sorted(ReceiptLe, l.receipts)
    ensures Sorting.Sorted(DismissalLe, l.dismissals) && Sorting.Sorted(ObservationLe, l.observations)
  {
    forall x: string, y: string ensures StringLe(x, y) <==> x == y || Precedes(x, y) {
      StringLeExactly(x, y);
    }
    hide StringLe, Precedes;
  }

  lemma NextIsSorted(z: Primitives, l: Ledger, d: Delivery, key: SigningKey)
    ensures var next := NextLedger(z, l, d, key);
            && Sorting.Sorted(DeliveryLe, next.deliveries) && Sorting.Sorted(ReceiptLe, next.receipts)
            && Sorting.Sorted(DismissalLe, next.dismissals) && Sorting.Sorted(ObservationLe, next.observations)
  {
    DeliveryOrder();
    DismissalOrder();
    hide Sorting.TotalPreorder, Sorting.Sort, Sorting.Sorted;
    Sorting.SortSorted(DeliveryLe, l.deliveries + [d]);
    Sorting.SortSorted(ReceiptLe, l.receipts);
    Sorting.SortSorted(DismissalLe, l.dismissals);
    Sorting.SortSorted(ObservationLe, l.observations);
  }

  lemma GrownExactly(before: Ledger, after: Ledger, fact: Fact, d: Delivery)
    ensures BodyOf(after) == With(BodyOf(before), d, fact) <==>
            Grown(before, after, fact) && multiset(after.deliveries) == multiset(before.deliveries) + multiset{d}
  {
  }

  /** Sorted lists of sound ledgers are determined by their members. */
  lemma SameLists(z: Primitives, l: Ledger, k: Ledger)
    requires Valid(z, l) && BodyOf(l) == BodyOf(k)
    requires Sorting.Sorted(DeliveryLe, l.deliveries) && Sorting.Sorted(ReceiptLe, l.receipts)
    requires Sorting.Sorted(DismissalLe, l.dismissals) && Sorting.Sorted(ObservationLe, l.observations)
    requires Sorting.Sorted(DeliveryLe, k.deliveries) && Sorting.Sorted(ReceiptLe, k.receipts)
    requires Sorting.Sorted(DismissalLe, k.dismissals) && Sorting.Sorted(ObservationLe, k.observations)
    ensures l.deliveries == k.deliveries && l.receipts == k.receipts
    ensures l.dismissals == k.dismissals && l.observations == k.observations
  {
    DeliveryOrder();
    DismissalOrder();
    hide Sorting.TotalPreorder, Sorting.Sorted, Sorting.KeysDiffer, BodyHolds, SnapshotValid;
    KeysApart(z, l.identity, BodyOf(l));
    Sorting.SortedUnique(DeliveryLe, l.deliveries, k.deliveries);
    Sorting.SortedUnique(ReceiptLe, l.receipts, k.receipts);
    Sorting.SortedUnique(DismissalLe, l.dismissals, k.dismissals);
    Sorting.SortedUnique(ObservationLe, l.observations, k.observations);
  }

  lemma NextRenewed(z: Primitives, q: Request, before: Ledger, appended: Ledger, d: Delivery)
    requires appended.snapshot == before.snapshot && appended.identity == before.identity
    requires before.snapshot.revision < U64_MAX
    ensures var next := NextLedger(z, appended, d, q.key);
            next.identity == before.identity && Renewed(z, q, before, next)
  {
    hide Sorting.Sort;
  }

  lemma RenewedAlike(z: Primitives, q: Request, before: Ledger, l: Ledger, k: Ledger)
    requires Renewed(z, q, before, l) && Renewed(z, q, before, k) && l.identity == k.identity
    requires l.deliveries == k.deliveries && l.receipts == k.receipts
    requires l.dismissals == k.dismissals && l.observations == k.observations
    ensures l == k
  {
    assert l.snapshot.(signature := "") == k.snapshot.(signature := "");
  }

  lemma FoundNone(ds: seq<Delivery>, id: string)
    ensures FindDelivery(ds, id).None? <==> forall k :: 0 <= k < |ds| ==> ds[k].id != id
  {
    if FindDelivery(ds, id).None? {
      forall k | 0 <= k < |ds| ensures ds[k].id != id {
        assert ds[k] in ds;
      }
    }
  }

  lemma NewTakesIn(z: Primitives, g: Gateway, q: Request, o: Opening, before: Ledger, after: Ledger, fact: Fact)
    requires Contributes(z, g, before, q, o, SignedDelivery(z, q, o, fact), fact)
    requires Unlisted(BodyOf(before), q.deliveryId) && FindDelivery(before.deliveries, q.deliveryId).None?
    requires IngestNew(z, g, before, q, o) == Ok(after)
    ensures TakesIn(z, g, q, o.kind, before, after, fact, SignedDelivery(z, q, o, fact))
  {
    hide Valid, Sound, DeriveFact, With, Unlisted, FromDelivery, Grown, Delivered, InOrder, Renewed, FindReceipt,
         Sorting.Sorted, SignedDelivery, FindDelivery, NextLedger;
    var d := SignedDelivery(z, q, o, fact);
    OpenExactly(z, g, q, o);
    SignedExactly(z, g, q, o, fact, d);
    DerivedFrom(z, g, q, o);
    AppendKeeps(before, fact);
    if fact.ReceiptFact? {
      AppendedReceiptIsNew(before, fact, q.deliveryId);
    }
    var appended := Append(before, fact).value;
    NextBody(z, before, fact, d, q.key);
    GrownExactly(before, after, fact, d);
    NextIsSorted(z, appended, d, q.key);
    ValidExactly(z, after);
    DistinctInOrder(z, after);
    NextRenewed(z, q, before, appended, d);
    FoundNone(before.deliveries, q.deliveryId);
  }

  lemma TakesInNew(z: Primitives, g: Gateway, q: Request, o: Opening, before: Ledger, after: Ledger, fact: Fact,
                   d: Delivery)
    requires Contributes(z, g, before, q, o, SignedDelivery(z, q, o, fact), fact)
    requires TakesIn(z, g, q, o.kind, before, after, fact, d)
    ensures FindDelivery(before.deliveries, q.deliveryId).None? && IngestNew(z, g, before, q, o) == Ok(after)
  {
    hide Sound, DeriveFact, With, Grown, Delivered, InOrder, Renewed, FindReceipt, Sorting.Sorted, SignedDelivery,
         FindDelivery, NextLedger, Valid, Open, Append, BodyOf, Holds;
    OpenExactly(z, g, q, o);
    SignedExactly(z, g, q, o, fact, d);
    FoundNone(before.deliveries, q.deliveryId);
    ValidExactly(z, after);
    ValidHolds(z, after);
    GrownExactly(before, after, fact, d);
    AppendWorks(z, before, fact, d);
    RevisionRoom(z, q, before, after);
    OnlyNext(z, q, before, after, fact, d);
  }

  /** The ledger taken in is the one the program builds. */
  lemma OnlyNext(z: Primitives, q: Request, before: Ledger, after: Ledger, fact: Fact, d: Delivery)
    requires Append(before, fact).Ok?
    requires fact.ReceiptFact? ==> FindReceipt(before.receipts, fact.receipt.reviewId).None?
    requires BodyOf(after) == With(BodyOf(before), d, fact) && after.identity == before.identity && Valid(z, after)
    requires InOrder(after) && Renewed(z, q, before, after) && before.snapshot.revision < U64_MAX
    ensures NextLedger(z, Append(before, fact).value, d, q.key) == after
  {
    hide Valid, With, InOrder, Renewed, FindReceipt, Sorting.Sorted, NextLedger, BodyOf, Append;
    AppendKeeps(before, fact);
    var appended := Append(before, fact).value;
    NextBody(z, before, fact, d, q.key);
    NextIsSorted(z, appended, d, q.key);
    InOrderIsSorted(after);
    var next := NextLedger(z, appended, d, q.key);
    SameLists(z, after, next);
    NextRenewed(z, q, before, appended, d);
    RenewedAlike(z, q, before, after, next);
  }

  lemma ValidHolds(z: Primitives, l: Ledger)
    requires Valid(z, l)
    ensures Holds(z, l.identity, BodyOf(l))
  {
  }

  lemma RevisionRoom(z: Primitives, q: Request, before: Ledger, after: Ledger)
    requires Renewed(z, q, before, after)
    ensures before.snapshot.revision < U64_MAX
  {
  }

  // ----- the whole request

  lemma BeginsExactly(z: Primitives, ledger: Option<Ledger>, o: Opening)
    ensures Begins(z, ledger, StartOf(ledger, o)) <==> (ledger.Some? ==> Valid(z, ledger.value))
    ensures forall before :: Begins(z, ledger, before) && before.identity == o.identity ==>
                               before == StartOf(ledger, o)
  {
    hide Sound, Valid;
    if ledger.Some? {
      ValidExactly(z, ledger.value);
    }
  }

  /** A request is applied exactly when it takes in one new delivery with the fact it carries. */
  lemma AppliedExactly(z: Primitives, g: Gateway, ledger: Option<Ledger>, q: Request, after: Ledger)
    ensures IngestResult(z, g, ledger, q) == Ok((after, Applied)) <==> Applies(z, g, ledger, q, after)
  {
    hide Open, Valid, Sound, DeriveFact, SignedDelivery, Begins, Arrives, SpeaksFor, Carries, TakesIn, Unlisted,
         FindDelivery, IngestNew;
    if IngestResult(z, g, ledger, q) == Ok((after, Applied)) {
      var o := Open(z, g, q).value;
      OpenExactly(z, g, q, o);
      BeginsExactly(z, ledger, o);
      StartUnlisted(z, ledger, o);
      DerivedWhenNew(z, g, StartOf(ledger, o), q, o);
      var fact := DeriveFact(z, g, o.webhook, q.deliveryId, q.receivedAt, o.hash).value;
      FactExactly(z, g, q, o.webhook, o.kind, fact);
      NewTakesIn(z, g, q, o, StartOf(ledger, o), after, fact);
    }
    if Applies(z, g, ledger, q, after) {
      var w, kind, before, fact, d :|
        && Arrives(g, q, w, kind) && Begins(z, ledger, before) && SpeaksFor(z, q, w, before.identity)
        && Carries(z, g, q, w, kind, fact) && TakesIn(z, g, q, kind, before, after, fact, d);
      var o := Opening(before.identity, kind, g.hash(q.payload), w);
      OpenExactly(z, g, q, o);
      BeginsExactly(z, ledger, o);
      FactExactly(z, g, q, w, kind, fact);
      TakesInNew(z, g, q, o, before, after, fact, d);
    }
  }

  lemma DerivedWhenNew(z: Primitives, g: Gateway, l: Ledger, q: Request, o: Opening)
    requires IngestNew(z, g, l, q, o).Ok?
    ensures DeriveFact(z, g, o.webhook, q.deliveryId, q.receivedAt, o.hash).Ok?
  {
  }

  /** A request leaves the ledger alone exactly when it is recorded in it already. */
  lemma RepeatedExactly(z: Primitives, g: Gateway, ledger: Option<Ledger>, q: Request, after: Ledger)
    ensures IngestResult(z, g, ledger, q) == Ok((after, Duplicate)) <==> Repeats(z, g, ledger, q, after)
  {
    hide Open, Valid, Sound, Arrives, SpeaksFor, IngestNew;
    ValidExactly(z, after);
    if IngestResult(z, g, ledger, q) == Ok((after, Duplicate)) {
      var o := Open(z, g, q).value;
      OpenExactly(z, g, q, o);
      var d := FindDelivery(StartOf(ledger, o).deliveries, q.deliveryId).value;
      var k :| 0 <= k < |after.deliveries| && after.deliveries[k] == d;
    }
    if Repeats(z, g, ledger, q, after) {
      var w, kind, k :|
        && Arrives(g, q, w, kind) && ledger == Some(after) && Sound(z, after) && SpeaksFor(z, q, w, after.identity)
        && 0 <= k < |after.deliveries| && after.deliveries[k].id == q.deliveryId
        && after.deliveries[k].kind == kind && after.deliveries[k].payloadHash == g.hash(q.payload);
      var o := Opening(after.identity, kind, g.hash(q.payload), w);
      OpenExactly(z, g, q, o);
      ValidIsUnique(z, after);
      FoundIsUnique(after.deliveries, q.deliveryId, after.deliveries[k]);
    }
  }

  /** Applied exactly when the request takes in one new delivery with its fact, a duplicate exactly when it is recorded
      already, and otherwise refused. */
  method IngestGithubWebhook(z: Primitives, g: Gateway, ledger: Option<Ledger>, q: Request)
    returns (result: Result<(Ledger, IngestOutcome), LedgerError>)
    ensures result == IngestResult(z, g, ledger, q)
    ensures forall after :: result == Ok((after, Applied)) <==> Applies(z, g, ledger, q, after)
    ensures forall after :: result == Ok((after, Duplicate)) <==> Repeats(z, g, ledger, q, after)
  {
    hide Valid, IngestNew, Open, Applies, Repeats;
    forall after ensures IngestResult(z, g, ledger, q) == Ok((after, Applied)) <==> Applies(z, g, ledger, q, after) {
      AppliedExactly(z, g, ledger, q, after);
    }
    forall after ensures IngestResult(z, g, ledger, q) == Ok((after, Duplicate)) <==> Repeats(z, g, ledger, q, after) {
      RepeatedExactly(z, g, ledger, q, after);
    }
    var opening := Open(z, g, q);
    if opening.Err? {
      return Err(opening.error);
    }
    var o := opening.value;
    var current := Fresh(o.identity);
    if ledger.Some? {
      var valid := Validate(z, ledger.value);
      if !valid {
        return Err(InvalidLedger);
      }
      if ledger.value.identity != o.identity {
        return Err(IdentityChanged);
      }
      current := ledger.value;
    }
    var existing := FindDelivery(current.deliveries, q.deliveryId);
    if existing.Some? {
      if existing.value.kind != o.kind || existing.value.payloadHash != o.hash {
        return Err(DeliveryReused);
      }
      return Ok((current, Duplicate));
    }
    var next := IngestDelivery(z, g, current, q, o);
    if next.Err? {
      return Err(next.error);
    }
    return Ok((next.value, Applied));
  }
}
