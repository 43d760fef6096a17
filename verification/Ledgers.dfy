/** The review ledger: its records, what makes it valid, and the validator. */
module Ledgers {
  import opened Wrappers
  import opened Strings
  import opened Uniqueness

  const MAX_LEDGER_DELIVERIES: nat := 10_000
  const MAX_LEDGER_REVIEWS: nat := 1_000
  const U64_MAX: nat := 0xFFFF_FFFF_FFFF_FFFF

  datatype WebhookKind = ReviewSubmitted | ReviewDismissed | Synchronize

  datatype ReviewState = Approved | ChangesRequested

  datatype Repository = Repository(id: nat, nodeId: string, fullName: string)

  datatype PullRequest = PullRequest(id: nat, nodeId: string, number: nat)

  datatype Receiver = Receiver(keyId: string, publicKey: string)

  datatype Identity = Identity(providerUrl: string, repository: Repository, pullRequest: PullRequest,
                               receiver: Receiver)

  datatype Delivery = Delivery(id: string, kind: WebhookKind, receivedAt: string, payloadHash: string,
                               factHash: Option<string>, signature: string)

  datatype Receipt = Receipt(reviewId: nat, reviewNodeId: string, reviewerId: nat, reviewerNodeId: string,
                             reviewerLogin: string, state: ReviewState, commitId: string, submittedAt: string,
                             htmlUrl: string, association: string, source: string, payloadHash: string,
                             receiptHash: string)

  datatype Dismissal = Dismissal(reviewId: nat, reviewerId: nat, reviewerNodeId: string, reviewerLogin: string,
                                 commitId: Option<string>, submittedAt: Option<string>, source: string,
                                 receivedAt: string, payloadHash: string)

  datatype Observation = Observation(beforeCommit: string, headCommit: string, baseCommit: string, source: string,
                                     receivedAt: string, payloadHash: string)

  datatype Snapshot = Snapshot(revision: nat, deliveryCount: nat, receiptCount: nat, dismissalCount: nat,
                               observationCount: nat, bodyHash: string, signature: string)

  datatype Ledger = Ledger(identity: Identity, deliveries: seq<Delivery>, receipts: seq<Receipt>,
                           dismissals: seq<Dismissal>, observations: seq<Observation>, snapshot: Snapshot)

  type SigningKey = nat

  /** The deterministic functions the ledger is built on: field validators, digests, signatures. */
  datatype Primitives = Primitives(
    validIdentity: Identity -> bool,
    validDelivery: Delivery -> bool,
    validReceipt: Receipt -> bool,
    validDismissal: Dismissal -> bool,
    validObservation: Observation -> bool,
    validDigest: string -> bool,
    receiptDigest: Receipt -> string,
    dismissalDigest: Dismissal -> string,
    observationDigest: Observation -> string,
    bodyDigest: (Identity, seq<Delivery>, seq<Receipt>, seq<Dismissal>, seq<Observation>) -> string,
    deliverySigned: (Identity, Delivery) -> bool,
    signDelivery: (SigningKey, Identity, Delivery) -> string,
    snapshotSigned: (Identity, Snapshot) -> bool,
    signSnapshot: (SigningKey, Identity, Snapshot) -> string,
    publicKey: SigningKey -> string)

  // ----- keys

  function DeliveryId(d: Delivery): string { d.id }

  function ReviewId(r: Receipt): nat { r.reviewId }

  function ReceiptSource(r: Receipt): string { r.source }

  function DismissalSource(d: Dismissal): string { d.source }

  function ObservationSource(o: Observation): string { o.source }

  // ----- validity of the body

  ghost predicate SourceOf(ds: multiset<Delivery>, source: string, kind: WebhookKind, payloadHash: string,
                           digest: string,
                           receivedAt: Option<string>)
  {
    exists d :: d in ds && d.id == source && d.kind == kind && d.payloadHash == payloadHash &&
        d.factHash == Some(digest) &&
                (receivedAt.Some? ==> d.receivedAt == receivedAt.value)
  }

  ghost predicate ReceiptHolds(z: Primitives, ds: multiset<Delivery>, r: Receipt) {
    && z.validReceipt(r) && r.receiptHash == z.receiptDigest(r)
    && SourceOf(ds, r.source, ReviewSubmitted, r.payloadHash, z.receiptDigest(r), None)
  }

  /** A dismissal says nothing its receipt contradicts. */
  predicate Agrees(r: Receipt, d: Dismissal) {
    && r.reviewerId == d.reviewerId && r.reviewerNodeId == d.reviewerNodeId
    && LowerAscii(r.reviewerLogin) == LowerAscii(d.reviewerLogin)
    && (d.commitId.Some? ==> r.commitId == d.commitId.value)
    && (d.submittedAt.Some? ==> r.submittedAt == d.submittedAt.value)
  }

  ghost predicate DismissalHolds(z: Primitives, ds: multiset<Delivery>, rs: multiset<Receipt>, d: Dismissal) {
    && z.validDismissal(d)
    && SourceOf(ds, d.source, ReviewDismissed, d.payloadHash, z.dismissalDigest(d), Some(d.receivedAt))
    && forall r :: r in rs && r.reviewId == d.reviewId ==> Agrees(r, d)
  }

  ghost predicate ObservationHolds(z: Primitives, ds: multiset<Delivery>, o: Observation) {
    && z.validObservation(o)
    && SourceOf(ds, o.source, Synchronize, o.payloadHash, z.observationDigest(o), Some(o.receivedAt))
  }

  /** A delivery has the fact it announces: a submitted one may announce none, the others must. */
  ghost predicate DeliveryCovered(d: Delivery, rs: multiset<Receipt>, ms: multiset<Dismissal>,
                                  os: multiset<Observation>) {
    match d.kind
    case ReviewSubmitted => d.factHash.Some? <==> exists r :: r in rs && r.source == d.id
    case ReviewDismissed => d.factHash.Some? && exists i :: i in ms && i.source == d.id
    case Synchronize => d.factHash.Some? && exists o :: o in os && o.source == d.id
  }

  predicate Genuine(z: Primitives, identity: Identity, d: Delivery) {
    z.validDelivery(d) && z.deliverySigned(identity, d)
  }

  ghost predicate DeliveriesHold(z: Primitives, identity: Identity, ds: multiset<Delivery>) {
    && |ds| <= MAX_LEDGER_DELIVERIES && UniqueBy(DeliveryId, ds)
    && forall d :: d in ds ==> Genuine(z, identity, d)
  }

  ghost predicate ReceiptsHold(z: Primitives, ds: multiset<Delivery>, rs: multiset<Receipt>) {
    && |rs| <= MAX_LEDGER_REVIEWS && UniqueBy(ReviewId, rs) && UniqueBy(ReceiptSource, rs)
    && forall r :: r in rs ==> ReceiptHolds(z, ds, r)
  }

  ghost predicate DismissalsHold(z: Primitives, ds: multiset<Delivery>, rs: multiset<Receipt>,
                                 ms: multiset<Dismissal>) {
    UniqueBy(DismissalSource, ms) && forall i :: i in ms ==> DismissalHolds(z, ds, rs, i)
  }

  ghost predicate ObservationsHold(z: Primitives, ds: multiset<Delivery>, os: multiset<Observation>) {
    UniqueBy(ObservationSource, os) && forall o :: o in os ==> ObservationHolds(z, ds, o)
  }

  ghost predicate BodyHolds(z: Primitives, identity: Identity, ds: multiset<Delivery>, rs: multiset<Receipt>,
                            ms: multiset<Dismissal>, os: multiset<Observation>)
  {
    && z.validIdentity(identity) && DeliveriesHold(z, identity, ds) && ReceiptsHold(z, ds, rs)
    && DismissalsHold(z, ds, rs, ms) && ObservationsHold(z, ds, os)
    && forall d :: d in ds ==> DeliveryCovered(d, rs, ms, os)
  }

  /** These conditions do not depend on the order of the records; the digest in the snapshot does. */
  ghost predicate BodyValid(z: Primitives, l: Ledger) {
    BodyHolds(z, l.identity, multiset(l.deliveries), multiset(l.receipts), multiset(l.dismissals),
              multiset(l.observations))
  }

  predicate SnapshotValid(z: Primitives, l: Ledger) {
    && l.snapshot.revision != 0
    && l.snapshot.deliveryCount == |l.deliveries| && l.snapshot.receiptCount == |l.receipts|
    && l.snapshot.dismissalCount == |l.dismissals| && l.snapshot.observationCount == |l.observations|
    && z.validDigest(l.snapshot.bodyHash)
    && l.snapshot.bodyHash == z.bodyDigest(l.identity, l.deliveries, l.receipts, l.dismissals, l.observations)
    && z.snapshotSigned(l.identity, l.snapshot)
  }

  ghost predicate Valid(z: Primitives, l: Ledger) {
    BodyValid(z, l) && SnapshotValid(z, l)
  }

  // ----- validity spelled out, record by record

  ghost predicate Announced(l: Ledger, source: string, kind: WebhookKind, payloadHash: string, digest: string,
                            receivedAt: Option<string>)
  {
    exists k :: 0 <= k < |l.deliveries| && l.deliveries[k].id == source && l.deliveries[k].kind == kind &&
                l.deliveries[k].payloadHash == payloadHash && l.deliveries[k].factHash == Some(digest) &&
                (receivedAt == None || receivedAt == Some(l.deliveries[k].receivedAt))
  }

  ghost predicate SoundDeliveries(z: Primitives, l: Ledger) {
    && |l.deliveries| <= 10_000
    && (forall i, j :: 0 <= i < j < |l.deliveries| ==> l.deliveries[i].id != l.deliveries[j].id)
    && (forall i :: 0 <= i < |l.deliveries| ==>
                      z.validDelivery(l.deliveries[i]) && z.deliverySigned(l.identity, l.deliveries[i]))
  }

  ghost predicate SoundReceipts(z: Primitives, l: Ledger) {
    && |l.receipts| <= 1_000
    && (forall i, j :: 0 <= i < j < |l.receipts| ==>
                         l.receipts[i].reviewId != l.receipts[j].reviewId &&
                         l.receipts[i].source != l.receipts[j].source)
    && (forall i :: 0 <= i < |l.receipts| ==>
                      z.validReceipt(l.receipts[i]) && l.receipts[i].receiptHash == z.receiptDigest(l.receipts[i]) &&
                      Announced(l, l.receipts[i].source, ReviewSubmitted, l.receipts[i].payloadHash,
                                z.receiptDigest(l.receipts[i]), None))
  }

  /** Same reviewer, login alike but for ASCII case, and the commit and time of the receipt if it names any. */
  ghost predicate Consistent(r: Receipt, d: Dismissal) {
    && r.reviewerId == d.reviewerId && r.reviewerNodeId == d.reviewerNodeId
    && SpelledLike(r.reviewerLogin, d.reviewerLogin)
    && (d.commitId == None || d.commitId == Some(r.commitId))
    && (d.submittedAt == None || d.submittedAt == Some(r.submittedAt))
  }

  ghost predicate SoundDismissals(z: Primitives, l: Ledger) {
    && (forall i, j :: 0 <= i < j < |l.dismissals| ==> l.dismissals[i].source != l.dismissals[j].source)
    && (forall i :: 0 <= i < |l.dismissals| ==>
                      z.validDismissal(l.dismissals[i]) &&
                      Announced(l, l.dismissals[i].source, ReviewDismissed, l.dismissals[i].payloadHash,
                                z.dismissalDigest(l.dismissals[i]), Some(l.dismissals[i].receivedAt)))
    && (forall i, k :: 0 <= i < |l.dismissals| && 0 <= k < |l.receipts| &&
                       l.receipts[k].reviewId == l.dismissals[i].reviewId ==>
                         Consistent(l.receipts[k], l.dismissals[i]))
  }

  ghost predicate SoundObservations(z: Primitives, l: Ledger) {
    && (forall i, j :: 0 <= i < j < |l.observations| ==> l.observations[i].source != l.observations[j].source)
    && (forall i :: 0 <= i < |l.observations| ==>
                      z.validObservation(l.observations[i]) &&
                      Announced(l, l.observations[i].source, Synchronize, l.observations[i].payloadHash,
                                z.observationDigest(l.observations[i]), Some(l.observations[i].receivedAt)))
  }

  /** Every delivery that announces a fact has its record; only a submitted review may announce none. */
  ghost predicate Covered(l: Ledger) {
    forall i :: 0 <= i < |l.deliveries| ==>
                  var d := l.deliveries[i];
                  && (d.kind == ReviewSubmitted ==>
                        (d.factHash == None <==> forall k :: 0 <= k < |l.receipts| ==> l.receipts[k].source != d.id))
                  && (d.kind != ReviewSubmitted ==> d.factHash != None)
                  && (d.kind == ReviewDismissed ==>
                        exists k :: 0 <= k < |l.dismissals| && l.dismissals[k].source == d.id)
                  && (d.kind == Synchronize ==>
                        exists k :: 0 <= k < |l.observations| && l.observations[k].source == d.id)
  }

  ghost predicate SoundSnapshot(z: Primitives, l: Ledger) {
    var s := l.snapshot;
    && s.revision > 0
    && s.deliveryCount == |l.deliveries| && s.receiptCount == |l.receipts|
    && s.dismissalCount == |l.dismissals| && s.observationCount == |l.observations|
    && s.bodyHash == z.bodyDigest(l.identity, l.deliveries, l.receipts, l.dismissals, l.observations)
    && z.validDigest(s.bodyHash) && z.snapshotSigned(l.identity, s)
  }

  ghost predicate Sound(z: Primitives, l: Ledger) {
    && z.validIdentity(l.identity) && SoundDeliveries(z, l) && SoundReceipts(z, l) && SoundDismissals(z, l)
    && SoundObservations(z, l) && Covered(l) && SoundSnapshot(z, l)
  }

  lemma Member<T>(s: seq<T>)
    ensures forall x :: x in multiset(s) <==> exists k :: 0 <= k < |s| && s[k] == x
    ensures forall k :: 0 <= k < |s| ==> s[k] in multiset(s)
    ensures |multiset(s)| == |s|
  {
    assert forall x :: x in multiset(s) <==> x in s;
  }

  lemma AnnouncedExactly(l: Ledger, source: string, kind: WebhookKind, payloadHash: string, digest: string,
                         receivedAt: Option<string>)
    ensures SourceOf(multiset(l.deliveries), source, kind, payloadHash, digest, receivedAt) <==>
            Announced(l, source, kind, payloadHash, digest, receivedAt)
  {
    Member(l.deliveries);
    if Announced(l, source, kind, payloadHash, digest, receivedAt) {
      var k :| 0 <= k < |l.deliveries| && l.deliveries[k].id == source && l.deliveries[k].kind == kind &&
               l.deliveries[k].payloadHash == payloadHash && l.deliveries[k].factHash == Some(digest) &&
               (receivedAt == None || receivedAt == Some(l.deliveries[k].receivedAt));
      assert l.deliveries[k] in multiset(l.deliveries);
    }
  }

  lemma DeliveriesExactly(z: Primitives, l: Ledger)
    ensures DeliveriesHold(z, l.identity, multiset(l.deliveries)) <==> SoundDeliveries(z, l)
  {
    hide UniqueBy;
    ApartIsUnique(DeliveryId, l.deliveries);
    Member(l.deliveries);
  }

  lemma ReceiptsExactly(z: Primitives, l: Ledger)
    ensures ReceiptsHold(z, multiset(l.deliveries), multiset(l.receipts)) <==> SoundReceipts(z, l)
  {
    hide UniqueBy, SourceOf, Announced;
    ApartIsUnique(ReviewId, l.receipts);
    ApartIsUnique(ReceiptSource, l.receipts);
    Member(l.receipts);
    forall r: Receipt
      ensures SourceOf(multiset(l.deliveries), r.source, ReviewSubmitted, r.payloadHash, z.receiptDigest(r), None) <==>
              Announced(l, r.source, ReviewSubmitted, r.payloadHash, z.receiptDigest(r), None)
    {
      AnnouncedExactly(l, r.source, ReviewSubmitted, r.payloadHash, z.receiptDigest(r), None);
    }
  }

  lemma AgreesExactly(r: Receipt, d: Dismissal)
    ensures Agrees(r, d) <==> Consistent(r, d)
  {
    LowerAsciiExactly(r.reviewerLogin, d.reviewerLogin);
    hide SpelledLike, LowerAscii;
  }

  lemma DismissalExactly(z: Primitives, l: Ledger, d: Dismissal)
    ensures DismissalHolds(z, multiset(l.deliveries), multiset(l.receipts), d) <==>
            && z.validDismissal(d)
            && Announced(l, d.source, ReviewDismissed, d.payloadHash, z.dismissalDigest(d), Some(d.receivedAt))
            && forall k :: 0 <= k < |l.receipts| && l.receipts[k].reviewId == d.reviewId ==>
                             Consistent(l.receipts[k], d)
  {
    hide SourceOf, Announced, Agrees, Consistent;
    Member(l.receipts);
    AnnouncedExactly(l, d.source, ReviewDismissed, d.payloadHash, z.dismissalDigest(d), Some(d.receivedAt));
    forall r ensures Agrees(r, d) <==> Consistent(r, d) {
      AgreesExactly(r, d);
    }
  }

  lemma DismissalsExactly(z: Primitives, l: Ledger)
    ensures DismissalsHold(z, multiset(l.deliveries), multiset(l.receipts), multiset(l.dismissals)) <==>
            SoundDismissals(z, l)
  {
    hide UniqueBy, DismissalHolds, Announced, Consistent;
    ApartIsUnique(DismissalSource, l.dismissals);
    Member(l.dismissals);
    forall i | 0 <= i < |l.dismissals|
      ensures var d := l.dismissals[i];
              DismissalHolds(z, multiset(l.deliveries), multiset(l.receipts), d) <==>
              && z.validDismissal(d)
              && Announced(l, d.source, ReviewDismissed, d.payloadHash, z.dismissalDigest(d), Some(d.receivedAt))
              && forall k :: 0 <= k < |l.receipts| && l.receipts[k].reviewId == d.reviewId ==>
                               Consistent(l.receipts[k], d)
    {
      DismissalExactly(z, l, l.dismissals[i]);
    }
  }

  lemma ObservationsExactly(z: Primitives, l: Ledger)
    ensures ObservationsHold(z, multiset(l.deliveries), multiset(l.observations)) <==> SoundObservations(z, l)
  {
    hide UniqueBy, SourceOf, Announced;
    ApartIsUnique(ObservationSource, l.observations);
    Member(l.observations);
    forall o: Observation
      ensures SourceOf(multiset(l.deliveries), o.source, Synchronize, o.payloadHash, z.observationDigest(o),
                       Some(o.receivedAt)) <==>
              Announced(l, o.source, Synchronize, o.payloadHash, z.observationDigest(o), Some(o.receivedAt))
    {
      AnnouncedExactly(l, o.source, Synchronize, o.payloadHash, z.observationDigest(o), Some(o.receivedAt));
    }
  }

  lemma CoveredExactly(l: Ledger)
    ensures (forall d :: d in multiset(l.deliveries) ==>
               DeliveryCovered(d, multiset(l.receipts), multiset(l.dismissals), multiset(l.observations))) <==>
            Covered(l)
  {
    Member(l.deliveries);
    Member(l.receipts);
    Member(l.dismissals);
    Member(l.observations);
  }

  /** Validity is soundness record by record. */
  lemma ValidExactly(z: Primitives, l: Ledger)
    ensures Valid(z, l) <==> Sound(z, l)
  {
    hide UniqueBy, DeliveriesHold, ReceiptsHold, DismissalsHold, ObservationsHold, DeliveryCovered, SoundDeliveries,
         SoundReceipts, SoundDismissals, SoundObservations, Covered;
    DeliveriesExactly(z, l);
    ReceiptsExactly(z, l);
    DismissalsExactly(z, l);
    ObservationsExactly(z, l);
    CoveredExactly(l);
  }

  // ----- what depends on the order of the records

  /** The same identity, records and snapshot, the records perhaps in other places. */
  ghost predicate Reordered(l: Ledger, k: Ledger) {
    && l.identity == k.identity && l.snapshot == k.snapshot
    && multiset(l.deliveries) == multiset(k.deliveries) && multiset(l.receipts) == multiset(k.receipts)
    && multiset(l.dismissals) == multiset(k.dismissals) && multiset(l.observations) == multiset(k.observations)
  }

  /** A reordered ledger stays valid exactly when its lists still have the digest that was signed. */
  lemma ReorderedValid(z: Primitives, l: Ledger, k: Ledger)
    requires Valid(z, l) && Reordered(l, k)
    ensures Valid(z, k) <==>
            z.bodyDigest(k.identity, k.deliveries, k.receipts, k.dismissals, k.observations) == l.snapshot.bodyHash
  {
    hide BodyHolds;
    assert |k.deliveries| == |multiset(k.deliveries)| == |multiset(l.deliveries)| == |l.deliveries|;
    assert |k.receipts| == |multiset(k.receipts)| == |multiset(l.receipts)| == |l.receipts|;
    assert |k.dismissals| == |multiset(k.dismissals)| == |multiset(l.dismissals)| == |l.dismissals|;
    assert |k.observations| == |multiset(k.observations)| == |multiset(l.observations)| == |l.observations|;
  }

  /** Two deliveries of ignored comments, and a digest that tells which comes first. */
  function Comment(id: string): Delivery {
    Delivery(id, ReviewSubmitted, "", "", None, "")
  }

  function FirstId(ds: seq<Delivery>): string {
    if ds == [] then "" else ds[0].id
  }

  function FirstIdPrimitives(): Primitives {
    Primitives(i => true, d => true, r => true, d => true, o => true, h => true, r => "", d => "", o => "",
               (i, ds, rs, ms, os) => FirstId(ds), (i, d) => true, (k, i, d) => "", (i, s) => true, (k, i, s) => "",
               k => "")
  }

  function TwoComments(identity: Identity, ds: seq<Delivery>): Ledger {
    Ledger(identity, ds, [], [], [], Snapshot(1, 2, 0, 0, 0, "a", ""))
  }

  lemma CommentsDiffer()
    ensures Comment("a") != Comment("b") && UniqueBy(DeliveryId, multiset{Comment("a"), Comment("b")})
  {
    assert "a"[0] != "b"[0];
    assert DeliveryId(Comment("a")) == "a" && DeliveryId(Comment("b")) == "b";
  }

  lemma CommentsHold(identity: Identity)
    ensures var ds := multiset{Comment("a"), Comment("b")};
            BodyHolds(FirstIdPrimitives(), identity, ds, multiset{}, multiset{}, multiset{})
  {
    CommentsDiffer();
    hide UniqueBy;
    NoneUnique();
  }

  lemma NoneUnique()
    ensures UniqueBy(ReviewId, multiset{}) && UniqueBy(ReceiptSource, multiset{})
    ensures UniqueBy(DismissalSource, multiset{}) && UniqueBy(ObservationSource, multiset{})
  {
  }

  /** One ledger valid in one order and not in another. */
  lemma OrderCanMatter(identity: Identity)
    ensures var z := FirstIdPrimitives();
            var l := TwoComments(identity, [Comment("a"), Comment("b")]);
            var k := TwoComments(identity, [Comment("b"), Comment("a")]);
            Reordered(l, k) && Valid(z, l) && !Valid(z, k)
  {
    hide BodyHolds, UniqueBy, Comment;
    var z := FirstIdPrimitives();
    var l := TwoComments(identity, [Comment("a"), Comment("b")]);
    var k := TwoComments(identity, [Comment("b"), Comment("a")]);
    CommentsHold(identity);
    assert multiset(l.deliveries) == multiset{Comment("a"), Comment("b")} == multiset(k.deliveries);
    CommentIds();
    assert FirstId(l.deliveries) == "a" && FirstId(k.deliveries) == "b";
    assert "a"[0] != "b"[0];
  }

  lemma CommentIds()
    ensures Comment("a").id == "a" && Comment("b").id == "b"
  {
  }

  // ----- the validator

  lemma PrefixGrows<T>(s: seq<T>, n: nat)
    requires n < |s|
    ensures multiset(s[..n + 1]) == multiset(s[..n]) + multiset{s[n]} && multiset(s[..n + 1]) <= multiset(s)
  {
    assert s[..n + 1] == s[..n] + [s[n]];
    assert s == s[..n + 1] + s[n + 1..];
  }

  /** The first n records have different keys, and these are their keys. */
  ghost predicate KeysOf<T(!new), K(!new)>(key: T -> K, s: seq<T>, n: nat, keys: set<K>) {
    && n <= |s| && UniqueBy(key, multiset(s[..n]))
    && forall k :: k in keys <==> exists x :: x in multiset(s[..n]) && key(x) == k
  }

  lemma NoKeys<T(!new), K(!new)>(key: T -> K, s: seq<T>)
    ensures KeysOf(key, s, 0, {})
  {
  }

  lemma NextKey<T(!new), K(!new)>(key: T -> K, s: seq<T>, n: nat, keys: set<K>)
    requires KeysOf(key, s, n, keys) && n < |s|
    ensures key(s[n]) !in keys ==> KeysOf(key, s, n + 1, keys + {key(s[n])})
    ensures key(s[n]) in keys ==> !UniqueBy(key, multiset(s))
  {
    PrefixGrows(s, n);
    UniqueByAdd(key, multiset(s[..n]), s[n]);
    if UniqueBy(key, multiset(s)) {
      UniqueBySub(key, multiset(s[..n + 1]), multiset(s));
    }
  }

  lemma AllKeys<T(!new), K(!new)>(key: T -> K, s: seq<T>, keys: set<K>)
    requires KeysOf(key, s, |s|, keys)
    ensures UniqueBy(key, multiset(s)) && forall k :: k in keys <==> exists x :: x in multiset(s) && key(x) == k
  {
    assert s[..|s|] == s;
  }

  /** Which deliveries there are, by id. */
  ghost predicate ById(ds: multiset<Delivery>, byId: map<string, Delivery>) {
    forall id :: (id in byId ==> byId[id] in ds && byId[id].id == id) &&
        (forall d :: d in ds && d.id == id ==> id in byId)
  }

  method ValidateDeliveries(z: Primitives, l: Ledger) returns (ok: bool, byId: map<string, Delivery>)
    ensures ok <==> DeliveriesHold(z, l.identity, multiset(l.deliveries))
    ensures ok ==> ById(multiset(l.deliveries), byId)
  {
    hide UniqueBy, KeysOf;
    byId := map[];
    if |l.deliveries| > MAX_LEDGER_DELIVERIES {
      return false, byId;
    }
    NoKeys(DeliveryId, l.deliveries);
    assert byId.Keys == {};
    for n := 0 to |l.deliveries|
      invariant KeysOf(DeliveryId, l.deliveries, n, byId.Keys)
      invariant forall id :: id in byId ==> byId[id] in l.deliveries && byId[id].id == id
      invariant forall i :: 0 <= i < n ==> Genuine(z, l.identity, l.deliveries[i])
    {
      var d := l.deliveries[n];
      NextKey(DeliveryId, l.deliveries, n, byId.Keys);
      if DeliveryId(d) in byId || !Genuine(z, l.identity, d) {
        assert d in multiset(l.deliveries);
        return false, byId;
      }
      assert byId[DeliveryId(d) := d].Keys == byId.Keys + {DeliveryId(d)};
      byId := byId[DeliveryId(d) := d];
    }
    AllKeys(DeliveryId, l.deliveries, byId.Keys);
    AllDeliveries(l, byId);
    ok := true;
  }

  lemma AllDeliveries(l: Ledger, byId: map<string, Delivery>)
    requires forall k :: k in byId.Keys <==> exists d :: d in multiset(l.deliveries) && DeliveryId(d) == k
    requires forall id :: id in byId ==> byId[id] in l.deliveries && byId[id].id == id
    ensures ById(multiset(l.deliveries), byId)
  {
    forall d | d in multiset(l.deliveries) ensures d.id in byId {
      assert DeliveryId(d) in byId.Keys;
    }
  }

  predicate SourceFound(byId: map<string, Delivery>, source: string, kind: WebhookKind, payloadHash: string,
                        digest: string, receivedAt: Option<string>)
  {
    source in byId && byId[source].kind == kind && byId[source].payloadHash == payloadHash &&
    byId[source].factHash == Some(digest) && (receivedAt.Some? ==> byId[source].receivedAt == receivedAt.value)
  }

  lemma FoundIsSource(ds: multiset<Delivery>, byId: map<string, Delivery>, source: string, kind: WebhookKind,
                      payloadHash: string, digest: string, receivedAt: Option<string>)
    requires ById(ds, byId) && UniqueBy(DeliveryId, ds)
    ensures SourceFound(byId, source, kind, payloadHash, digest, receivedAt) <==>
            SourceOf(ds, source, kind, payloadHash, digest, receivedAt)
  {
    if SourceOf(ds, source, kind, payloadHash, digest, receivedAt) {
      var d :| d in ds && d.id == source && d.kind == kind && d.payloadHash == payloadHash &&
               d.factHash == Some(digest) && (receivedAt.Some? ==> d.receivedAt == receivedAt.value);
      assert DeliveryId(byId[source]) == DeliveryId(d);
    }
  }

  method ValidateReceipts(z: Primitives, l: Ledger, byId: map<string, Delivery>)
    returns (ok: bool, sources: set<string>)
    requires ById(multiset(l.deliveries), byId) && UniqueBy(DeliveryId, multiset(l.deliveries))
    ensures ok <==> ReceiptsHold(z, multiset(l.deliveries), multiset(l.receipts))
    ensures ok ==> forall s :: s in sources <==> exists r :: r in multiset(l.receipts) && ReceiptSource(r) == s
  {
    hide UniqueBy, KeysOf, ById, SourceFound, SourceOf;
    var ids: set<nat> := {};
    sources := {};
    if |l.receipts| > MAX_LEDGER_REVIEWS {
      return false, sources;
    }
    NoKeys(ReviewId, l.receipts);
    NoKeys(ReceiptSource, l.receipts);
    for n := 0 to |l.receipts|
      invariant KeysOf(ReviewId, l.receipts, n, ids) && KeysOf(ReceiptSource, l.receipts, n, sources)
      invariant forall i :: 0 <= i < n ==> ReceiptHolds(z, multiset(l.deliveries), l.receipts[i])
    {
      var r := l.receipts[n];
      NextKey(ReviewId, l.receipts, n, ids);
      NextKey(ReceiptSource, l.receipts, n, sources);
      FoundIsSource(multiset(l.deliveries), byId, r.source, ReviewSubmitted, r.payloadHash, z.receiptDigest(r), None);
      var holds := z.validReceipt(r) && r.receiptHash == z.receiptDigest(r) &&
                   SourceFound(byId, r.source, ReviewSubmitted, r.payloadHash, z.receiptDigest(r), None);
      if ReviewId(r) in ids || ReceiptSource(r) in sources || !holds {
        assert r in multiset(l.receipts);
        return false, sources;
      }
      ids := ids + {ReviewId(r)};
      sources := sources + {ReceiptSource(r)};
    }
    AllKeys(ReviewId, l.receipts, ids);
    AllKeys(ReceiptSource, l.receipts, sources);
    ok := true;
  }

  /** The first receipt of a review contradicts the dismissal, if there is one. */
  method FindConflict(receipts: seq<Receipt>, d: Dismissal) returns (conflict: bool)
    requires UniqueBy(ReviewId, multiset(receipts))
    ensures conflict <==> exists r :: r in multiset(receipts) && r.reviewId == d.reviewId && !Agrees(r, d)
  {
    hide Agrees;
    for n := 0 to |receipts|
      invariant forall r :: r in multiset(receipts[..n]) ==> r.reviewId != d.reviewId
    {
      PrefixGrows(receipts, n);
      if receipts[n].reviewId == d.reviewId {
        assert receipts[n] in multiset(receipts) && ReviewId(receipts[n]) == d.reviewId;
        return !Agrees(receipts[n], d);
      }
    }
    assert receipts[..|receipts|] == receipts;
    return false;
  }

  method ValidateDismissals(z: Primitives, l: Ledger, byId: map<string, Delivery>)
    returns (ok: bool, sources: set<string>)
    requires ById(multiset(l.deliveries), byId) && UniqueBy(DeliveryId, multiset(l.deliveries))
    requires UniqueBy(ReviewId, multiset(l.receipts))
    ensures ok <==> DismissalsHold(z, multiset(l.deliveries), multiset(l.receipts), multiset(l.dismissals))
    ensures ok ==> forall s :: s in sources <==> exists d :: d in multiset(l.dismissals) && DismissalSource(d) == s
  {
    hide UniqueBy, KeysOf, ById, SourceFound, SourceOf, Agrees;
    sources := {};
    NoKeys(DismissalSource, l.dismissals);
    for n := 0 to |l.dismissals|
      invariant KeysOf(DismissalSource, l.dismissals, n, sources)
      invariant forall i :: 0 <= i < n ==> DismissalHolds(z, multiset(l.deliveries), multiset(l.receipts),
                                                          l.dismissals[i])
    {
      var d := l.dismissals[n];
      NextKey(DismissalSource, l.dismissals, n, sources);
      FoundIsSource(multiset(l.deliveries), byId, d.source, ReviewDismissed, d.payloadHash, z.dismissalDigest(d),
                    Some(d.receivedAt));
      var conflict := FindConflict(l.receipts, d);
      var holds := z.validDismissal(d) &&
                   SourceFound(byId, d.source, ReviewDismissed, d.payloadHash, z.dismissalDigest(d),
                               Some(d.receivedAt));
      if DismissalSource(d) in sources || !holds || conflict {
        assert d in multiset(l.dismissals);
        return false, sources;
      }
      sources := sources + {DismissalSource(d)};
    }
    AllKeys(DismissalSource, l.dismissals, sources);
    ok := true;
  }

  method ValidateObservations(z: Primitives, l: Ledger, byId: map<string, Delivery>)
    returns (ok: bool, sources: set<string>)
    requires ById(multiset(l.deliveries), byId) && UniqueBy(DeliveryId, multiset(l.deliveries))
    ensures ok <==> ObservationsHold(z, multiset(l.deliveries), multiset(l.observations))
    ensures ok ==> forall s :: s in sources <==> exists o :: o in multiset(l.observations) && ObservationSource(o) == s
  {
    hide UniqueBy, KeysOf, ById, SourceFound, SourceOf, Agrees;
    sources := {};
    NoKeys(ObservationSource, l.observations);
    for n := 0 to |l.observations|
      invariant KeysOf(ObservationSource, l.observations, n, sources)
      invariant forall i :: 0 <= i < n ==> ObservationHolds(z, multiset(l.deliveries), l.observations[i])
    {
      var o := l.observations[n];
      NextKey(ObservationSource, l.observations, n, sources);
      FoundIsSource(multiset(l.deliveries), byId, o.source, Synchronize, o.payloadHash, z.observationDigest(o),
                    Some(o.receivedAt));
      var holds := z.validObservation(o) &&
                   SourceFound(byId, o.source, Synchronize, o.payloadHash, z.observationDigest(o), Some(o.receivedAt));
      if ObservationSource(o) in sources || !holds {
        assert o in multiset(l.observations);
        return false, sources;
      }
      sources := sources + {ObservationSource(o)};
    }
    AllKeys(ObservationSource, l.observations, sources);
    ok := true;
  }

  method ValidateCoverage(l: Ledger, receiptSources: set<string>, dismissalSources: set<string>,
                          observationSources: set<string>)
    returns (ok: bool)
    requires forall s :: s in receiptSources <==> exists r :: r in multiset(l.receipts) && ReceiptSource(r) == s
    requires forall s :: s in dismissalSources <==> exists i :: i in multiset(l.dismissals) && DismissalSource(i) == s
    requires forall s :: s in observationSources <==>
                           exists o :: o in multiset(l.observations) && ObservationSource(o) == s
    ensures ok <==> forall d :: d in multiset(l.deliveries) ==>
                      DeliveryCovered(d, multiset(l.receipts), multiset(l.dismissals), multiset(l.observations))
  {
    hide DeliveryCovered;
    for n := 0 to |l.deliveries|
      invariant forall d :: d in multiset(l.deliveries[..n]) ==>
                  DeliveryCovered(d, multiset(l.receipts), multiset(l.dismissals), multiset(l.observations))
    {
      var d := l.deliveries[n];
      PrefixGrows(l.deliveries, n);
      CoveredBySources(d, l, receiptSources, dismissalSources, observationSources);
      var covered :=
        match d.kind
        case ReviewSubmitted => d.factHash.Some? == (d.id in receiptSources)
        case ReviewDismissed => d.factHash.Some? && d.id in dismissalSources
        case Synchronize => d.factHash.Some? && d.id in observationSources;
      if !covered {
        return false;
      }
    }
    assert l.deliveries[..|l.deliveries|] == l.deliveries;
    return true;
  }

  lemma CoveredBySources(d: Delivery, l: Ledger, receiptSources: set<string>, dismissalSources: set<string>,
                         observationSources: set<string>)
    requires forall s :: s in receiptSources <==> exists r :: r in multiset(l.receipts) && ReceiptSource(r) == s
    requires forall s :: s in dismissalSources <==> exists i :: i in multiset(l.dismissals) && DismissalSource(i) == s
    requires forall s :: s in observationSources <==>
                           exists o :: o in multiset(l.observations) && ObservationSource(o) == s
    ensures DeliveryCovered(d, multiset(l.receipts), multiset(l.dismissals), multiset(l.observations)) <==>
            match d.kind
            case ReviewSubmitted => d.factHash.Some? == (d.id in receiptSources)
            case ReviewDismissed => d.factHash.Some? && d.id in dismissalSources
            case Synchronize => d.factHash.Some? && d.id in observationSources
  {
    assert forall r :: r in multiset(l.receipts) && r.source == d.id ==> ReceiptSource(r) == d.id;
    assert forall i :: i in multiset(l.dismissals) && i.source == d.id ==> DismissalSource(i) == d.id;
    assert forall o :: o in multiset(l.observations) && o.source == d.id ==> ObservationSource(o) == d.id;
  }

  /** The validator accepts exactly the valid ledgers, which are the ones sound record by record. */
  method Validate(z: Primitives, l: Ledger) returns (ok: bool)
    ensures ok <==> Valid(z, l)
    ensures ok <==> Sound(z, l)
  {
    hide DeliveryCovered, UniqueBy, ById, ReceiptHolds, DismissalHolds, ObservationHolds, Sound;
    ValidExactly(z, l);
    if !z.validIdentity(l.identity) {
      return false;
    }
    var byId;
    ok, byId := ValidateDeliveries(z, l);
    if !ok {
      return false;
    }
    var receiptSources, dismissalSources, observationSources;
    ok, receiptSources := ValidateReceipts(z, l, byId);
    if !ok {
      return false;
    }
    ok, dismissalSources := ValidateDismissals(z, l, byId);
    if !ok {
      return false;
    }
    ok, observationSources := ValidateObservations(z, l, byId);
    if !ok {
      return false;
    }
    ok := ValidateCoverage(l, receiptSources, dismissalSources, observationSources);
    if !ok {
      return false;
    }
    return SnapshotValid(z, l);
  }
}
