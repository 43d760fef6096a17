/** Taking one webhook delivery into the ledger. */
module Ingest {
  import opened Wrappers
  import opened Strings
  import opened Uniqueness
  import opened Ledgers
  import Sorting

  datatype LedgerError =
    | InvalidRequest | UnsupportedWebhook | InvalidFact | InvalidLedger | IdentityChanged | DeliveryReused
    | DeliveryLimit | ReviewReused | ReviewLimit | RevisionOverflow

  datatype IngestOutcome = Applied | Duplicate

  datatype Request = Request(providerUrl: string, eventName: string, deliveryId: string, receivedAt: string,
                             signatureHeader: string, secret: string, keyId: string, key: SigningKey, payload: string)

  datatype User = User(id: nat, nodeId: string, login: string, accountType: string)

  datatype Review = Review(id: nat, nodeId: string, user: Option<User>, state: string, commitId: Option<string>,
                           submittedAt: Option<string>, htmlUrl: string, association: string)

  datatype Webhook =
    | ReviewHook(action: string, review: Review, repository: Repository, pullRequest: PullRequest)
    | SynchronizeHook(action: string, beforeCommit: string, afterCommit: string, baseCommit: string, headCommit: string,
                      repository: Repository, pullRequest: PullRequest)

  /** What happens to a request before the ledger is touched: field checks and HMAC, decoding by event name, SHA-256. */
  datatype Gateway = Gateway(authentic: Request -> bool, decode: (string, string) -> Option<Webhook>,
                             validPayload: Webhook -> bool, hash: string -> string, isSha1: string -> bool)

  // ----- from a request to a fact

  datatype Opening = Opening(identity: Identity, kind: WebhookKind, hash: string, webhook: Webhook)

  function KindOf(w: Webhook): Option<WebhookKind> {
    match w
    case ReviewHook(action, _, _, _) =>
      if action == "submitted" then Some(ReviewSubmitted)
      else if action == "dismissed" then Some(ReviewDismissed) else None
    case SynchronizeHook(action, _, _, _, _, _, _) => if action == "synchronize" then Some(Synchronize) else None
  }

  function Open(z: Primitives, g: Gateway, q: Request): Result<Opening, LedgerError> {
    if !g.authentic(q) then Err(InvalidRequest)
    else match g.decode(q.eventName, q.payload)
         case None => Err(UnsupportedWebhook)
         case Some(w) =>
           if KindOf(w).None? || !g.validPayload(w) then Err(UnsupportedWebhook)
           else Ok(Opening(Identity(q.providerUrl, w.repository, w.pullRequest, Receiver(q.keyId, z.publicKey(q.key))),
                           KindOf(w).value, g.hash(q.payload), w))
  }

  datatype Fact = ReceiptFact(receipt: Receipt) | DismissalFact(dismissal: Dismissal)
                | ObservationFact(observation: Observation) | IgnoredReview

  function SubmittedFact(z: Primitives, review: Review, deliveryId: string, hash: string): Result<Fact, LedgerError> {
    var state := LowerAscii(review.state);
    if state == "commented" then Ok(IgnoredReview)
    else if state != "approved" && state != "changes_requested" then Err(InvalidFact)
    else if review.user.None? || review.user.value.accountType != "User" then Err(InvalidFact)
    else if review.commitId.None? || review.submittedAt.None? then Err(InvalidFact)
    else
      var user := review.user.value;
      var receipt := Receipt(review.id, review.nodeId, user.id, user.nodeId, user.login,
                             if state == "approved" then Approved else ChangesRequested, review.commitId.value,
                             review.submittedAt.value, review.htmlUrl, review.association, deliveryId, hash, "");
      if !z.validReceipt(receipt) then Err(InvalidFact)
      else Ok(ReceiptFact(receipt.(receiptHash := z.receiptDigest(receipt))))
  }

  function DismissedFact(z: Primitives, review: Review, deliveryId: string, receivedAt: string, hash: string)
    : Result<Fact, LedgerError>
  {
    if LowerAscii(review.state) != "dismissed" then Err(InvalidFact)
    else if review.user.None? || review.user.value.accountType != "User" then Err(InvalidFact)
    else
      var user := review.user.value;
      var dismissal := Dismissal(review.id, user.id, user.nodeId, user.login, review.commitId, review.submittedAt,
                                 deliveryId, receivedAt, hash);
      if z.validDismissal(dismissal) then Ok(DismissalFact(dismissal)) else Err(InvalidFact)
  }

  function DeriveFact(z: Primitives, g: Gateway, w: Webhook, deliveryId: string, receivedAt: string, hash: string)
    : Result<Fact, LedgerError>
  {
    match w
    case ReviewHook(action, review, _, _) =>
      if action == "submitted" then SubmittedFact(z, review, deliveryId, hash)
      else DismissedFact(z, review, deliveryId, receivedAt, hash)
    case SynchronizeHook(_, beforeCommit, afterCommit, baseCommit, headCommit, _, _) =>
      var observation := Observation(beforeCommit, afterCommit, baseCommit, deliveryId, receivedAt, hash);
      if !g.isSha1(beforeCommit) || !g.isSha1(afterCommit) || afterCommit != headCommit || !g.isSha1(baseCommit) ||
         !z.validObservation(observation)
      then Err(InvalidFact) else Ok(ObservationFact(observation))
  }

  function FactDigest(z: Primitives, fact: Fact): Option<string> {
    match fact
    case ReceiptFact(receipt) => Some(z.receiptDigest(receipt))
    case DismissalFact(dismissal) => Some(z.dismissalDigest(dismissal))
    case ObservationFact(observation) => Some(z.observationDigest(observation))
    case IgnoredReview => None
  }

  /** The delivery that carries the fact, signed for the ledger with this identity. */
  function SignedDelivery(z: Primitives, q: Request, o: Opening, fact: Fact): Delivery {
    var d := Delivery(q.deliveryId, o.kind, q.receivedAt, o.hash, FactDigest(z, fact), "");
    d.(signature := z.signDelivery(q.key, o.identity, d))
  }

  // ----- into the ledger

  function Fresh(identity: Identity): Ledger {
    Ledger(identity, [], [], [], [], Snapshot(0, 0, 0, 0, 0, "", ""))
  }

  function FindDelivery(ds: seq<Delivery>, id: string): (found: Option<Delivery>)
    ensures found.Some? ==> found.value in ds && found.value.id == id
    ensures found.None? ==> forall d :: d in ds ==> d.id != id
  {
    if ds == [] then None else if ds[0].id == id then Some(ds[0]) else FindDelivery(ds[1..], id)
  }

  function FindReceipt(rs: seq<Receipt>, id: nat): (found: Option<Receipt>)
    ensures found.Some? ==> found.value in rs && found.value.reviewId == id
    ensures found.None? ==> forall r :: r in rs ==> r.reviewId != id
  {
    if rs == [] then None else if rs[0].reviewId == id then Some(rs[0]) else FindReceipt(rs[1..], id)
  }

  function Append(l: Ledger, fact: Fact): Result<Ledger, LedgerError> {
    match fact
    case ReceiptFact(receipt) =>
      (match FindReceipt(l.receipts, receipt.reviewId)
       case Some(existing) => if existing == receipt then Ok(l) else Err(ReviewReused)
       case None =>
         if |l.receipts| >= MAX_LEDGER_REVIEWS then Err(ReviewLimit) else Ok(l.(receipts := l.receipts + [receipt])))
    case DismissalFact(dismissal) => Ok(l.(dismissals := l.dismissals + [dismissal]))
    case ObservationFact(observation) => Ok(l.(observations := l.observations + [observation]))
    case IgnoredReview => Ok(l)
  }

  predicate DeliveryLe(x: Delivery, y: Delivery) {
    StringLe(x.id, y.id)
  }

  predicate ReceiptLe(x: Receipt, y: Receipt) {
    x.reviewId <= y.reviewId
  }

  predicate DismissalLe(x: Dismissal, y: Dismissal) {
    x.reviewId < y.reviewId || (x.reviewId == y.reviewId && StringLe(x.source, y.source))
  }

  predicate ObservationLe(x: Observation, y: Observation) {
    StringLe(x.source, y.source)
  }

  function Sorted(l: Ledger): Ledger {
    l.(deliveries := Sorting.Sort(DeliveryLe, l.deliveries), receipts := Sorting.Sort(ReceiptLe, l.receipts),
       dismissals := Sorting.Sort(DismissalLe, l.dismissals),
       observations := Sorting.Sort(ObservationLe, l.observations))
  }

  function Resigned(z: Primitives, l: Ledger, revision: nat, key: SigningKey): Ledger {
    var unsigned := Snapshot(revision, |l.deliveries|, |l.receipts|, |l.dismissals|, |l.observations|,
                             z.bodyDigest(l.identity, l.deliveries, l.receipts, l.dismissals, l.observations), "");
    l.(snapshot := unsigned.(signature := z.signSnapshot(key, l.identity, unsigned)))
  }

  /** The ledger after a new delivery and its appended fact. */
  function NextLedger(z: Primitives, appended: Ledger, delivery: Delivery, key: SigningKey): Ledger {
    Resigned(z, Sorted(appended.(deliveries := appended.deliveries + [delivery])), appended.snapshot.revision + 1, key)
  }

  ghost function IngestNew(z: Primitives, g: Gateway, l: Ledger, q: Request, o: Opening): Result<Ledger, LedgerError> {
    if |l.deliveries| >= MAX_LEDGER_DELIVERIES then Err(DeliveryLimit)
    else match DeriveFact(z, g, o.webhook, q.deliveryId, q.receivedAt, o.hash)
         case Err(e) => Err(e)
         case Ok(fact) =>
           match Append(l, fact)
           case Err(e) => Err(e)
           case Ok(appended) =>
             if l.snapshot.revision >= U64_MAX then Err(RevisionOverflow)
             else
               var next := NextLedger(z, appended, SignedDelivery(z, q, o, fact), q.key);
               if Valid(z, next) then Ok(next) else Err(InvalidLedger)
  }

  ghost function IngestInto(z: Primitives, g: Gateway, l: Ledger, q: Request, o: Opening)
    : Result<(Ledger, IngestOutcome), LedgerError>
  {
    match FindDelivery(l.deliveries, q.deliveryId)
    case Some(existing) =>
      if existing.kind == o.kind && existing.payloadHash == o.hash then Ok((l, Duplicate)) else Err(DeliveryReused)
    case None =>
      match IngestNew(z, g, l, q, o)
      case Err(e) => Err(e)
      case Ok(next) => Ok((next, Applied))
  }

  ghost function IngestResult(z: Primitives, g: Gateway, ledger: Option<Ledger>, q: Request)
    : Result<(Ledger, IngestOutcome), LedgerError>
  {
    match Open(z, g, q)
    case Err(e) => Err(e)
    case Ok(o) =>
      match ledger
      case None => IngestInto(z, g, Fresh(o.identity), q, o)
      case Some(l) =>
        if !Valid(z, l) then Err(InvalidLedger)
        else if l.identity != o.identity then Err(IdentityChanged)
        else IngestInto(z, g, l, q, o)
  }

  /** Refused exactly when the first receipt of the review is a different one, or when it would be one receipt too many;
      otherwise afterwards exactly this receipt is there besides the old ones, the old ones keep their places, and
      uniqueness and the limit are kept. */
  method InsertReviewReceipt(ledger: Ledger, receipt: Receipt) returns (result: Result<Ledger, LedgerError>)
    ensures result == Append(ledger, ReceiptFact(receipt))
    ensures result == Err(ReviewReused) ==>
              exists r :: r in ledger.receipts && r.reviewId == receipt.reviewId && r != receipt
    ensures UniqueBy(ReviewId, multiset(ledger.receipts)) ==>
              (result == Err(ReviewReused) <==>
               exists r :: r in ledger.receipts && r.reviewId == receipt.reviewId && r != receipt)
    ensures result == Err(ReviewLimit) <==>
            && |ledger.receipts| >= MAX_LEDGER_REVIEWS
            && forall r :: r in ledger.receipts ==> r.reviewId != receipt.reviewId
    ensures result.Err? ==> result.error == ReviewReused || result.error == ReviewLimit
    ensures result.Ok? ==> ledger.receipts <= result.value.receipts &&
                           result.value == ledger.(receipts := result.value.receipts)
    ensures result.Ok? ==> forall r :: r in result.value.receipts <==> r in ledger.receipts || r == receipt
    ensures result.Ok? && |ledger.receipts| <= MAX_LEDGER_REVIEWS ==> |result.value.receipts| <= MAX_LEDGER_REVIEWS
    ensures result.Ok? && UniqueBy(ReviewId, multiset(ledger.receipts)) ==>
              UniqueBy(ReviewId, multiset(result.value.receipts))
  {
    UniqueByAdd(ReviewId, multiset(ledger.receipts), receipt);
    FirstIsOnly(ledger.receipts, receipt);
    hide UniqueBy;
    var existing := FindReceipt(ledger.receipts, receipt.reviewId);
    if existing.Some? {
      if existing.value != receipt {
        return Err(ReviewReused);
      }
      return Ok(ledger);
    }
    if |ledger.receipts| >= MAX_LEDGER_REVIEWS {
      return Err(ReviewLimit);
    }
    return Ok(ledger.(receipts := ledger.receipts + [receipt]));
  }

  lemma FirstIsOnly(receipts: seq<Receipt>, receipt: Receipt)
    ensures UniqueBy(ReviewId, multiset(receipts)) ==>
              forall r, s :: r in receipts && s in receipts && r.reviewId == s.reviewId ==> r == s
    ensures forall r :: r in receipts <==> r in multiset(receipts)
  {
    if UniqueBy(ReviewId, multiset(receipts)) {
      forall r, s | r in receipts && s in receipts && r.reviewId == s.reviewId ensures r == s {
        assert r in multiset(receipts) && s in multiset(receipts) && ReviewId(r) == ReviewId(s);
      }
    }
  }

  method AppendTo(ledger: Ledger, fact: Fact) returns (result: Result<Ledger, LedgerError>)
    ensures result == Append(ledger, fact)
  {
    match fact {
      case ReceiptFact(receipt) =>
        result := InsertReviewReceipt(ledger, receipt);
      case DismissalFact(dismissal) =>
        result := Ok(ledger.(dismissals := ledger.dismissals + [dismissal]));
      case ObservationFact(observation) =>
        result := Ok(ledger.(observations := ledger.observations + [observation]));
      case IgnoredReview =>
        result := Ok(ledger);
    }
  }

  lemma AppendKeepsSnapshot(l: Ledger, fact: Fact)
    ensures Append(l, fact).Ok? ==> Append(l, fact).value.snapshot == l.snapshot
  {
  }

  method IngestDelivery(z: Primitives, g: Gateway, ledger: Ledger, q: Request, o: Opening)
    returns (result: Result<Ledger, LedgerError>)
    ensures result == IngestNew(z, g, ledger, q, o)
  {
    hide Valid, Sorted, Append, DeriveFact, SignedDelivery, Resigned;
    if |ledger.deliveries| >= MAX_LEDGER_DELIVERIES {
      return Err(DeliveryLimit);
    }
    var derived := DeriveFact(z, g, o.webhook, q.deliveryId, q.receivedAt, o.hash);
    if derived.Err? {
      return Err(derived.error);
    }
    var delivery := SignedDelivery(z, q, o, derived.value);
    AppendKeepsSnapshot(ledger, derived.value);
    var appended := AppendTo(ledger, derived.value);
    if appended.Err? {
      return Err(appended.error);
    }
    var current := appended.value;
    var revision := current.snapshot.revision;
    if revision >= U64_MAX {
      return Err(RevisionOverflow);
    }
    current := current.(deliveries := current.deliveries + [delivery]);
    current := Resigned(z, Sorted(current), revision + 1, q.key);
    var valid := Validate(z, current);
    if !valid {
      return Err(InvalidLedger);
    }
    return Ok(current);
  }
}
