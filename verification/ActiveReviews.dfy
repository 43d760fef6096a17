/** Which review receipts still stand: the latest event of each reviewer, with dismissals as tombstones. */
module ActiveReviews {
  import opened Wrappers
  import opened Strings
  import opened Uniqueness
  import opened Ledgers
  import Sorting

  /** When an event counts as submitted, its review, and whether it takes back (1) or makes (0) the review. */
  type EventKey = (string, nat, nat)

  predicate KeyLess(x: EventKey, y: EventKey) {
    !StringLe(y.0, x.0) || (x.0 == y.0 && (x.1 < y.1 || (x.1 == y.1 && x.2 < y.2)))
  }

  /** Submitted sooner; at the same time, of the smaller review; of one review, the receipt before its dismissal. */
  ghost predicate Sooner(x: EventKey, y: EventKey) {
    Precedes(x.0, y.0) || (x.0 == y.0 && (x.1 < y.1 || (x.1 == y.1 && x.2 < y.2)))
  }

  lemma KeyLessExactly(x: EventKey, y: EventKey)
    ensures KeyLess(x, y) <==> Sooner(x, y)
  {
    StringLeExactly(y.0, x.0);
    StringLeExactly(x.0, y.0);
    StringLeTotal(x.0, y.0);
    StringLeTotal(x.0, x.0);
    PrecedesOneWay(x.0, y.0);
  }

  function ReceiptKey(r: Receipt): EventKey {
    (r.submittedAt, r.reviewId, 0)
  }

  // ----- what is active

  /** A dismissal is placed by its own submission time, or by that of the receipt it dismisses. */
  ghost predicate PlacedAt(receipts: seq<Receipt>, d: Dismissal, submittedAt: string) {
    if d.submittedAt.Some? then submittedAt == d.submittedAt.value
    else exists r :: r in receipts && r.reviewId == d.reviewId && r.submittedAt == submittedAt
  }

  ghost predicate Unplaceable(receipts: seq<Receipt>, d: Dismissal) {
    d.submittedAt.None? && forall r :: r in receipts ==> r.reviewId != d.reviewId
  }

  /** The receipt is its reviewer's latest event, and nothing about the reviewer is in doubt. */
  ghost predicate IsActive(receipts: seq<Receipt>, dismissals: seq<Dismissal>, r: Receipt) {
    && r in receipts
    && (forall d :: d in dismissals && d.reviewerId == r.reviewerId ==> !Unplaceable(receipts, d))
    && (forall other :: other in receipts && other.reviewerId == r.reviewerId && other != r ==>
                          Sooner((other.submittedAt, other.reviewId, 0), (r.submittedAt, r.reviewId, 0)))
    && (forall d, at :: d in dismissals && d.reviewerId == r.reviewerId && PlacedAt(receipts, d, at) ==>
                          Sooner((at, d.reviewId, 1), (r.submittedAt, r.reviewId, 0)))
  }

  /** Of several receipts of one review, the last one places the dismissal. */
  ghost predicate Places(receipts: seq<Receipt>, d: Dismissal, at: string) {
    || d.submittedAt == Some(at)
    || (d.submittedAt.None? &&
        exists k :: 0 <= k < |receipts| && receipts[k].reviewId == d.reviewId && receipts[k].submittedAt == at &&
                    forall m :: k < m < |receipts| ==> receipts[m].reviewId != d.reviewId)
  }

  /** No event of the reviewer is later than receipt i, no receipt before it in the list as late, and every dismissal
      of the reviewer has its place. */
  ghost predicate Survives(receipts: seq<Receipt>, dismissals: seq<Dismissal>, i: nat)
    requires i < |receipts|
  {
    var r := receipts[i];
    && (forall j :: 0 <= j < i && receipts[j].reviewerId == r.reviewerId ==>
                      Sooner((receipts[j].submittedAt, receipts[j].reviewId, 0), (r.submittedAt, r.reviewId, 0)))
    && (forall j :: i < j < |receipts| && receipts[j].reviewerId == r.reviewerId ==>
                      !Sooner((r.submittedAt, r.reviewId, 0), (receipts[j].submittedAt, receipts[j].reviewId, 0)))
    && (forall d :: d in dismissals && d.reviewerId == r.reviewerId ==>
                      exists at :: Places(receipts, d, at) &&
                                   !Sooner((r.submittedAt, r.reviewId, 0), (at, d.reviewId, 1)))
  }

  ghost predicate Surviving(receipts: seq<Receipt>, dismissals: seq<Dismissal>, r: Receipt) {
    exists i: nat :: i < |receipts| && receipts[i] == r && Survives(receipts, dismissals, i)
  }

  // ----- the key order

  lemma KeyTotal(x: EventKey, y: EventKey)
    ensures KeyLess(x, y) || KeyLess(y, x) || x == y
  {
    StringLeTotal(x.0, y.0);
    if StringLe(x.0, y.0) && StringLe(y.0, x.0) {
      StringLeAntisymmetric(x.0, y.0);
    }
  }

  lemma KeyAsymmetric(x: EventKey, y: EventKey)
    requires KeyLess(x, y)
    ensures !KeyLess(y, x)
  {
    StringLeTotal(x.0, y.0);
    StringLeTotal(x.0, x.0);
  }

  lemma KeyTransitive(x: EventKey, y: EventKey, u: EventKey)
    requires KeyLess(x, y) && KeyLess(y, u)
    ensures KeyLess(x, u)
  {
    StringLeTotal(x.0, y.0);
    StringLeTotal(y.0, u.0);
    if !StringLe(y.0, x.0) && !StringLe(u.0, y.0) {
      if StringLe(u.0, x.0) {
        StringLeTransitive(y.0, u.0, x.0);
      }
    }
  }

  // ----- the events of a ledger, valid or not

  datatype Latest = MadeBy(receipt: Receipt) | TakenBack(dismissal: Dismissal, at: string)

  function LatestKey(e: Latest): EventKey {
    match e
    case MadeBy(r) => ReceiptKey(r)
    case TakenBack(d, at) => (at, d.reviewId, 1)
  }

  function ReviewerOf(e: Latest): nat {
    match e
    case MadeBy(r) => r.reviewerId
    case TakenBack(d, _) => d.reviewerId
  }

  /** Of several receipts of one review, the last counts when a dismissal is placed. */
  function LastReceipt(receipts: seq<Receipt>, id: nat): (found: Option<Receipt>)
    ensures found.Some? ==> found.value in receipts && found.value.reviewId == id
    ensures found.None? ==> forall r :: r in receipts ==> r.reviewId != id
  {
    if receipts == [] then None
    else
      var n := |receipts| - 1;
      assert receipts == receipts[..n] + [receipts[n]];
      if receipts[n].reviewId == id then Some(receipts[n]) else LastReceipt(receipts[..n], id)
  }

  function PlaceOf(receipts: seq<Receipt>, d: Dismissal): Option<string> {
    if d.submittedAt.Some? then d.submittedAt
    else match LastReceipt(receipts, d.reviewId)
         case None => None
         case Some(r) => Some(r.submittedAt)
  }

  function Made(receipts: seq<Receipt>): (events: seq<Latest>)
    ensures |events| == |receipts| && forall i :: 0 <= i < |events| ==> events[i] == MadeBy(receipts[i])
  {
    seq(|receipts|, i requires 0 <= i < |receipts| => MadeBy(receipts[i]))
  }

  function Withdrawn(receipts: seq<Receipt>, dismissals: seq<Dismissal>): (events: seq<Latest>)
    ensures forall e :: e in events <==>
                          e.TakenBack? && e.dismissal in dismissals && PlaceOf(receipts, e.dismissal) == Some(e.at)
  {
    if dismissals == [] then []
    else
      var n := |dismissals| - 1;
      assert dismissals == dismissals[..n] + [dismissals[n]];
      var rest := Withdrawn(receipts, dismissals[..n]);
      match PlaceOf(receipts, dismissals[n])
      case None => rest
      case Some(at) => rest + [TakenBack(dismissals[n], at)]
  }

  /** All receipts, then all dismissals that can be placed, in list order. */
  function Events(receipts: seq<Receipt>, dismissals: seq<Dismissal>): seq<Latest> {
    Made(receipts) + Withdrawn(receipts, dismissals)
  }

  /** The event is the first with the largest key of its reviewer. */
  ghost predicate Leads(events: seq<Latest>, i: nat) {
    && i < |events|
    && (forall j :: 0 <= j < i && ReviewerOf(events[j]) == ReviewerOf(events[i]) ==>
                      KeyLess(LatestKey(events[j]), LatestKey(events[i])))
    && (forall j :: i < j < |events| && ReviewerOf(events[j]) == ReviewerOf(events[i]) ==>
                      !KeyLess(LatestKey(events[i]), LatestKey(events[j])))
  }

  ghost predicate Leading(events: seq<Latest>, e: Latest) {
    exists i: nat :: Leads(events, i) && events[i] == e
  }

  /** The receipt leads its reviewer's events, and no dismissal of the reviewer is out of place. */
  ghost predicate Stands(receipts: seq<Receipt>, dismissals: seq<Dismissal>, r: Receipt) {
    && Leading(Events(receipts, dismissals), MadeBy(r))
    && forall d :: d in dismissals && d.reviewerId == r.reviewerId ==> PlaceOf(receipts, d).Some?
  }

  // ----- the reduction

  /** The table holds the leading event of every reviewer with an event. */
  ghost predicate LatestOf(events: seq<Latest>, latest: map<nat, Latest>) {
    && (forall id :: id in latest ==> ReviewerOf(latest[id]) == id && Leading(events, latest[id]))
    && (forall i :: 0 <= i < |events| ==> ReviewerOf(events[i]) in latest)
  }

  function Updated(latest: map<nat, Latest>, e: Latest): map<nat, Latest> {
    var id := ReviewerOf(e);
    if id !in latest || KeyLess(LatestKey(latest[id]), LatestKey(e)) then latest[id := e] else latest
  }

  lemma OvertakesAll(events: seq<Latest>, i: nat, e: Latest, j: nat)
    requires Leads(events, i) && j < |events| && ReviewerOf(events[j]) == ReviewerOf(events[i])
    requires KeyLess(LatestKey(events[i]), LatestKey(e))
    ensures KeyLess(LatestKey(events[j]), LatestKey(e))
  {
    hide KeyLess;
    KeyTotal(LatestKey(events[j]), LatestKey(events[i]));
    if KeyLess(LatestKey(events[j]), LatestKey(events[i])) {
      KeyTransitive(LatestKey(events[j]), LatestKey(events[i]), LatestKey(e));
    }
  }

  lemma LeadingExtended(events: seq<Latest>, x: Latest, e: Latest)
    requires Leading(events, x)
    requires ReviewerOf(e) == ReviewerOf(x) ==> !KeyLess(LatestKey(x), LatestKey(e))
    ensures Leading(events + [e], x)
  {
    hide KeyLess;
    var i: nat :| Leads(events, i) && events[i] == x;
    assert Leads(events + [e], i);
  }

  lemma NewLeader(events: seq<Latest>, latest: map<nat, Latest>, e: Latest)
    requires LatestOf(events, latest)
    requires ReviewerOf(e) in latest ==> KeyLess(LatestKey(latest[ReviewerOf(e)]), LatestKey(e))
    ensures Leading(events + [e], e)
  {
    hide KeyLess;
    var n := |events|;
    forall j | 0 <= j < n && ReviewerOf(events[j]) == ReviewerOf(e)
      ensures KeyLess(LatestKey(events[j]), LatestKey(e))
    {
      var i: nat :| Leads(events, i) && events[i] == latest[ReviewerOf(e)];
      OvertakesAll(events, i, e, j);
    }
    assert Leads(events + [e], n);
  }

  lemma UpdateKeepsLatest(events: seq<Latest>, latest: map<nat, Latest>, e: Latest)
    requires LatestOf(events, latest)
    ensures LatestOf(events + [e], Updated(latest, e))
  {
    hide KeyLess, Leading;
    var updated := Updated(latest, e);
    forall id | id in updated ensures ReviewerOf(updated[id]) == id && Leading(events + [e], updated[id]) {
      if id == ReviewerOf(e) && (id !in latest || KeyLess(LatestKey(latest[id]), LatestKey(e))) {
        NewLeader(events, latest, e);
      } else {
        LeadingExtended(events, latest[id], e);
      }
    }
  }

  method ReceiptsById(receipts: seq<Receipt>) returns (byId: map<nat, Receipt>)
    ensures forall id :: id in byId <==> LastReceipt(receipts, id).Some?
    ensures forall id :: id in byId ==> LastReceipt(receipts, id) == Some(byId[id])
  {
    byId := map[];
    for n := 0 to |receipts|
      invariant forall id :: id in byId <==> LastReceipt(receipts[..n], id).Some?
      invariant forall id :: id in byId ==> LastReceipt(receipts[..n], id) == Some(byId[id])
    {
      assert receipts[..n + 1][..n] == receipts[..n];
      byId := byId[receipts[n].reviewId := receipts[n]];
    }
    assert receipts[..|receipts|] == receipts;
  }

  method LatestEvents(receipts: seq<Receipt>, dismissals: seq<Dismissal>)
    returns (latest: map<nat, Latest>, doubtful: set<nat>)
    ensures LatestOf(Events(receipts, dismissals), latest)
    ensures forall id :: id in doubtful <==>
                           exists d :: d in dismissals && d.reviewerId == id && PlaceOf(receipts, d).None?
  {
    hide KeyLess, LatestOf, LastReceipt, Events, Made, Updated;
    var byId := ReceiptsById(receipts);
    latest := map[];
    NoEvents(receipts, dismissals);
    for n := 0 to |receipts|
      invariant LatestOf(Made(receipts)[..n], latest)
    {
      NextMade(receipts, n);
      UpdateKeepsLatest(Made(receipts)[..n], latest, MadeBy(receipts[n]));
      latest := Updated(latest, MadeBy(receipts[n]));
    }
    doubtful := {};
    for k := 0 to |dismissals|
      invariant LatestOf(Events(receipts, dismissals[..k]), latest)
      invariant forall id :: id in doubtful <==>
                  exists d :: d in dismissals[..k] && d.reviewerId == id && PlaceOf(receipts, d).None?
    {
      var d := dismissals[k];
      assert dismissals[..k + 1] == dismissals[..k] + [d];
      NextEvent(receipts, dismissals, k);
      var at :=
        if d.submittedAt.Some? then d.submittedAt
        else if d.reviewId in byId then Some(byId[d.reviewId].submittedAt) else None;
      if at.None? {
        doubtful := doubtful + {d.reviewerId};
        continue;
      }
      UpdateKeepsLatest(Events(receipts, dismissals[..k]), latest, TakenBack(d, at.value));
      latest := Updated(latest, TakenBack(d, at.value));
    }
    assert dismissals[..|dismissals|] == dismissals;
  }

  lemma NoEvents(receipts: seq<Receipt>, dismissals: seq<Dismissal>)
    ensures LatestOf(Made(receipts)[..0], map[])
    ensures Made(receipts)[..|receipts|] == Events(receipts, dismissals[..0])
  {
  }

  lemma NextMade(receipts: seq<Receipt>, n: nat)
    requires n < |receipts|
    ensures Made(receipts)[..n + 1] == Made(receipts)[..n] + [MadeBy(receipts[n])]
  {
  }

  lemma NextEvent(receipts: seq<Receipt>, dismissals: seq<Dismissal>, k: nat)
    requires k < |dismissals|
    ensures Events(receipts, dismissals[..k + 1]) ==
            match PlaceOf(receipts, dismissals[k])
            case None => Events(receipts, dismissals[..k])
            case Some(at) => Events(receipts, dismissals[..k]) + [TakenBack(dismissals[k], at)]
  {
    hide LastReceipt, Made;
    assert dismissals[..k + 1][..k] == dismissals[..k];
  }

  lemma OneLeader(events: seq<Latest>, latest: map<nat, Latest>, e: Latest)
    requires LatestOf(events, latest) && Leading(events, e)
    ensures ReviewerOf(e) in latest && latest[ReviewerOf(e)] == e
  {
    hide KeyLess;
    var i: nat :| Leads(events, i) && events[i] == e;
    var j: nat :| Leads(events, j) && events[j] == latest[ReviewerOf(e)];
    assert i == j;
  }

  /** The table's receipts, without the reviewers in doubt, are the standing ones. */
  lemma LatestStands(receipts: seq<Receipt>, dismissals: seq<Dismissal>, latest: map<nat, Latest>, doubtful: set<nat>,
                     r: Receipt)
    requires LatestOf(Events(receipts, dismissals), latest)
    requires forall id :: id in doubtful <==>
                            exists d :: d in dismissals && d.reviewerId == id && PlaceOf(receipts, d).None?
    ensures Stands(receipts, dismissals, r) <==>
            r.reviewerId in latest && latest[r.reviewerId] == MadeBy(r) && r.reviewerId !in doubtful
  {
    hide Leading, PlaceOf, Events;
    if Leading(Events(receipts, dismissals), MadeBy(r)) {
      OneLeader(Events(receipts, dismissals), latest, MadeBy(r));
    }
  }

  predicate ReviewerLe(x: Receipt, y: Receipt) {
    x.reviewerId <= y.reviewerId
  }

  lemma PlaceExactly(receipts: seq<Receipt>, d: Dismissal, at: string)
    ensures PlaceOf(receipts, d) == Some(at) <==> Places(receipts, d, at)
  {
    LastExactly(receipts, d.reviewId);
  }

  lemma {:induction false} LastExactly(receipts: seq<Receipt>, id: nat)
    ensures forall r :: LastReceipt(receipts, id) == Some(r) <==>
                          exists k :: 0 <= k < |receipts| && receipts[k].reviewId == id && receipts[k] == r &&
                                      forall m :: k < m < |receipts| ==> receipts[m].reviewId != id
  {
    if receipts != [] {
      LastExactly(receipts[..|receipts| - 1], id);
    }
  }

  /** Leading the list of events, in words of the receipts and dismissals themselves. */
  lemma SurvivesExactly(receipts: seq<Receipt>, dismissals: seq<Dismissal>, r: Receipt)
    ensures Stands(receipts, dismissals, r) <==> Surviving(receipts, dismissals, r)
  {
    hide PlaceOf, KeyLess, Survives, Events;
    forall x, y {
      KeyLessExactly(x, y);
    }
    if Stands(receipts, dismissals, r) {
      var i: nat :| Leads(Events(receipts, dismissals), i) && Events(receipts, dismissals)[i] == MadeBy(r);
      EventPlaces(receipts, dismissals);
      LeaderSurvives(receipts, dismissals, i);
    }
    if Surviving(receipts, dismissals, r) {
      var i: nat :| i < |receipts| && receipts[i] == r && Survives(receipts, dismissals, i);
      EventPlaces(receipts, dismissals);
      SurvivorLeads(receipts, dismissals, i);
    }
  }

  lemma EventPlaces(receipts: seq<Receipt>, dismissals: seq<Dismissal>)
    ensures var events := Events(receipts, dismissals);
            && |receipts| <= |events|
            && (forall i :: 0 <= i < |receipts| ==> events[i] == MadeBy(receipts[i]))
            && (forall i :: |receipts| <= i < |events| ==> events[i].TakenBack?)
  {
    hide PlaceOf;
    var events := Events(receipts, dismissals);
    forall i | |receipts| <= i < |events| ensures events[i].TakenBack? {
      assert events[i] in Withdrawn(receipts, dismissals);
    }
  }

  lemma LeaderSurvives(receipts: seq<Receipt>, dismissals: seq<Dismissal>, i: nat)
    requires i < |receipts| && Leads(Events(receipts, dismissals), i)
    requires forall d :: d in dismissals && d.reviewerId == receipts[i].reviewerId ==> PlaceOf(receipts, d).Some?
    ensures Survives(receipts, dismissals, i)
  {
    hide PlaceOf, KeyLess, Events, Sooner, Places;
    var r, events := receipts[i], Events(receipts, dismissals);
    EventPlaces(receipts, dismissals);
    forall j | 0 <= j < |receipts| && receipts[j].reviewerId == r.reviewerId
      ensures j < i ==> Sooner(ReceiptKey(receipts[j]), ReceiptKey(r))
      ensures j > i ==> !Sooner(ReceiptKey(r), ReceiptKey(receipts[j]))
    {
      assert events[j] == MadeBy(receipts[j]);
      KeyLessExactly(ReceiptKey(receipts[j]), ReceiptKey(r));
      KeyLessExactly(ReceiptKey(r), ReceiptKey(receipts[j]));
    }
    forall d | d in dismissals && d.reviewerId == r.reviewerId
      ensures exists at :: Places(receipts, d, at) && !Sooner((r.submittedAt, r.reviewId, 0), (at, d.reviewId, 1))
    {
      var at := PlaceOf(receipts, d).value;
      PlaceExactly(receipts, d, at);
      KeyLessExactly(ReceiptKey(r), (at, d.reviewId, 1));
      var j := TakenBackAt(receipts, dismissals, d, at);
    }
  }

  lemma TakenBackAt(receipts: seq<Receipt>, dismissals: seq<Dismissal>, d: Dismissal, at: string) returns (j: nat)
    requires d in dismissals && PlaceOf(receipts, d) == Some(at)
    ensures |receipts| <= j < |Events(receipts, dismissals)| && Events(receipts, dismissals)[j] == TakenBack(d, at)
  {
    var withdrawn := Withdrawn(receipts, dismissals);
    assert TakenBack(d, at) in withdrawn;
    var k: nat :| k < |withdrawn| && withdrawn[k] == TakenBack(d, at);
    j := |receipts| + k;
  }

  lemma SurvivorLeads(receipts: seq<Receipt>, dismissals: seq<Dismissal>, i: nat)
    requires i < |receipts| && Survives(receipts, dismissals, i)
    ensures Stands(receipts, dismissals, receipts[i])
  {
    hide PlaceOf, KeyLess, Events, Sooner, Places;
    var r, events := receipts[i], Events(receipts, dismissals);
    EventPlaces(receipts, dismissals);
    forall d | d in dismissals && d.reviewerId == r.reviewerId ensures PlaceOf(receipts, d).Some? {
      var at :| Places(receipts, d, at);
      PlaceExactly(receipts, d, at);
    }
    forall j | 0 <= j < |events| && j != i && ReviewerOf(events[j]) == r.reviewerId
      ensures j < i ==> KeyLess(LatestKey(events[j]), ReceiptKey(r))
      ensures j > i ==> !KeyLess(ReceiptKey(r), LatestKey(events[j]))
    {
      KeyLessExactly(LatestKey(events[j]), ReceiptKey(r));
      KeyLessExactly(ReceiptKey(r), LatestKey(events[j]));
      if j >= |receipts| {
        assert events[j] in Withdrawn(receipts, dismissals) by { WithdrawnMember(receipts, dismissals, j); }
        var d := events[j].dismissal;
        var at :| Places(receipts, d, at) && !Sooner((r.submittedAt, r.reviewId, 0), (at, d.reviewId, 1));
        PlaceExactly(receipts, d, at);
      } else {
        assert events[j] == MadeBy(receipts[j]);
      }
    }
    assert Leads(events, i);
  }

  lemma WithdrawnMember(receipts: seq<Receipt>, dismissals: seq<Dismissal>, j: nat)
    requires |receipts| <= j < |Events(receipts, dismissals)|
    ensures Events(receipts, dismissals)[j] in Withdrawn(receipts, dismissals)
  {
  }

  /** Exactly the surviving receipts, by increasing reviewer, at most one each; also of a ledger that is not valid. */
  method ActiveReceipts(receipts: seq<Receipt>, dismissals: seq<Dismissal>) returns (active: seq<Receipt>)
    ensures forall r :: r in active <==> Surviving(receipts, dismissals, r)
    ensures forall i, j :: 0 <= i < j < |active| ==> active[i].reviewerId < active[j].reviewerId
  {
    hide KeyLess, Stands, Surviving, LatestOf, PlaceOf, Events, Sorting.Sort;
    var latest, doubtful := LatestEvents(receipts, dismissals);
    forall r
      ensures Surviving(receipts, dismissals, r) <==>
              r.reviewerId in latest && latest[r.reviewerId] == MadeBy(r) && r.reviewerId !in doubtful
    {
      LatestStands(receipts, dismissals, latest, doubtful, r);
      SurvivesExactly(receipts, dismissals, r);
    }
    KeysAreReviewers(Events(receipts, dismissals), latest);
    active := [];
    var reviewers := latest.Keys;
    while reviewers != {}
      invariant reviewers <= latest.Keys
      invariant forall r :: r in active <==> Surviving(receipts, dismissals, r) && r.reviewerId !in reviewers
      invariant forall i, j :: 0 <= i < j < |active| ==> active[i].reviewerId != active[j].reviewerId
      decreases |reviewers|
    {
      var id :| id in reviewers;
      reviewers := reviewers - {id};
      if latest[id].MadeBy? && id !in doubtful {
        active := active + [latest[id].receipt];
      }
    }
    SortedByReviewer(active);
    active := Sorting.Sort(ReviewerLe, active);
  }

  lemma KeysAreReviewers(events: seq<Latest>, latest: map<nat, Latest>)
    requires LatestOf(events, latest)
    ensures forall id :: id in latest ==> ReviewerOf(latest[id]) == id
  {
  }

  function Reviewer(r: Receipt): nat {
    r.reviewerId
  }

  lemma SortedByReviewer(active: seq<Receipt>)
    requires forall i, j :: 0 <= i < j < |active| ==> active[i].reviewerId != active[j].reviewerId
    ensures var s := Sorting.Sort(ReviewerLe, active);
            (forall r :: r in s <==> r in active) &&
            (forall i, j :: 0 <= i < j < |s| ==> s[i].reviewerId < s[j].reviewerId)
  {
    hide Sorting.Sort;
    var s := Sorting.Sort(ReviewerLe, active);
    Sorting.SortSorted(ReviewerLe, active);
    assert Apart(Reviewer, active);
    Sorting.SortMembers(ReviewerLe, Reviewer, active);
    forall i, j | 0 <= i < j < |s| ensures s[i].reviewerId < s[j].reviewerId {
      assert ReviewerLe(s[i], s[j]) && Reviewer(s[i]) != Reviewer(s[j]);
    }
  }

  // ----- one receipt per review: list order stops to matter

  ghost predicate OneReceiptPerReview(receipts: seq<Receipt>) {
    forall r, s :: r in receipts && s in receipts && r.reviewId == s.reviewId ==> r == s
  }

  lemma SoonerOrders(x: EventKey, y: EventKey)
    ensures Sooner(x, y) || Sooner(y, x) || x == y
    ensures !(Sooner(x, y) && Sooner(y, x)) && !Sooner(x, x)
  {
    hide KeyLess, Sooner;
    KeyLessExactly(x, y);
    KeyLessExactly(y, x);
    KeyLessExactly(x, x);
    KeyTotal(x, y);
    NotBelowItself(x);
    if KeyLess(x, y) {
      KeyAsymmetric(x, y);
    }
  }

  lemma NotBelowItself(x: EventKey)
    ensures !KeyLess(x, x)
  {
    StringLeTotal(x.0, x.0);
  }

  lemma PlacesIsPlacedAt(receipts: seq<Receipt>, d: Dismissal)
    requires OneReceiptPerReview(receipts)
    ensures Unplaceable(receipts, d) <==> forall at :: !Places(receipts, d, at)
    ensures forall at :: PlacedAt(receipts, d, at) <==> Places(receipts, d, at)
  {
    hide LastReceipt;
    forall at {
      PlaceExactly(receipts, d, at);
    }
    if d.submittedAt.None? && !Unplaceable(receipts, d) {
      assert PlaceOf(receipts, d).Some?;
      PlaceExactly(receipts, d, PlaceOf(receipts, d).value);
    }
  }

  lemma FirstPlace(receipts: seq<Receipt>, r: Receipt) returns (i: nat)
    requires r in receipts
    ensures i < |receipts| && receipts[i] == r && forall j :: 0 <= j < i ==> receipts[j] != r
  {
    i := 0;
    while receipts[i] != r
      invariant i < |receipts| && r in receipts[i..]
      invariant forall j :: 0 <= j < i ==> receipts[j] != r
      decreases |receipts| - i
    {
      i := i + 1;
    }
  }

  /** A ledger with one receipt per review: a receipt survives exactly when it is its reviewer's latest event and
      nothing about the reviewer is in doubt. */
  lemma SurvivingIsActive(receipts: seq<Receipt>, dismissals: seq<Dismissal>, r: Receipt)
    requires OneReceiptPerReview(receipts)
    ensures Surviving(receipts, dismissals, r) <==> IsActive(receipts, dismissals, r)
  {
    hide IsActive, Survives, OneReceiptPerReview;
    if Surviving(receipts, dismissals, r) {
      var i: nat :| i < |receipts| && receipts[i] == r && Survives(receipts, dismissals, i);
      SurvivorIsActive(receipts, dismissals, i);
    }
    if IsActive(receipts, dismissals, r) {
      ActiveSurvives(receipts, dismissals, r);
    }
  }

  lemma SurvivorIsActive(receipts: seq<Receipt>, dismissals: seq<Dismissal>, i: nat)
    requires OneReceiptPerReview(receipts) && i < |receipts| && Survives(receipts, dismissals, i)
    ensures IsActive(receipts, dismissals, receipts[i])
  {
    hide Sooner, Places, PlacedAt, Unplaceable;
    var r := receipts[i];
    forall other | other in receipts && other.reviewerId == r.reviewerId && other != r
      ensures Sooner(ReceiptKey(other), ReceiptKey(r))
    {
      var j :| 0 <= j < |receipts| && receipts[j] == other;
      SoonerOrders(ReceiptKey(other), ReceiptKey(r));
    }
    forall d | d in dismissals && d.reviewerId == r.reviewerId
      ensures !Unplaceable(receipts, d)
      ensures forall at :: PlacedAt(receipts, d, at) ==> Sooner((at, d.reviewId, 1), ReceiptKey(r))
    {
      PlacesIsPlacedAt(receipts, d);
      forall at | Places(receipts, d, at) ensures Sooner((at, d.reviewId, 1), ReceiptKey(r)) {
        PlaceExactly(receipts, d, at);
        var other :| Places(receipts, d, other) &&
                     !Sooner((r.submittedAt, r.reviewId, 0), (other, d.reviewId, 1));
        PlaceExactly(receipts, d, other);
        SoonerOrders((at, d.reviewId, 1), ReceiptKey(r));
      }
    }
  }

  lemma ActiveSurvives(receipts: seq<Receipt>, dismissals: seq<Dismissal>, r: Receipt)
    requires OneReceiptPerReview(receipts) && IsActive(receipts, dismissals, r)
    ensures Surviving(receipts, dismissals, r)
  {
    hide Sooner, Places, PlacedAt, Unplaceable;
    var i := FirstPlace(receipts, r);
    forall j | 0 <= j < |receipts| && receipts[j].reviewerId == r.reviewerId
      ensures j < i ==> Sooner(ReceiptKey(receipts[j]), ReceiptKey(r))
      ensures j > i ==> !Sooner(ReceiptKey(r), ReceiptKey(receipts[j]))
    {
      assert receipts[j] in receipts;
      SoonerOrders(ReceiptKey(receipts[j]), ReceiptKey(r));
    }
    forall d | d in dismissals && d.reviewerId == r.reviewerId
      ensures exists at :: Places(receipts, d, at) && !Sooner((r.submittedAt, r.reviewId, 0), (at, d.reviewId, 1))
    {
      PlacesIsPlacedAt(receipts, d);
      var at :| Places(receipts, d, at);
      SoonerOrders((at, d.reviewId, 1), ReceiptKey(r));
    }
    assert Survives(receipts, dismissals, i);
  }

  // ----- what later events do

  /** A later event of the reviewer retires a receipt: a receipt submitted later, or a dismissal placed later. */
  lemma LaterRetires(receipts: seq<Receipt>, dismissals: seq<Dismissal>, r: Receipt)
    ensures (exists s :: s in receipts && s.reviewerId == r.reviewerId &&
                         Sooner((r.submittedAt, r.reviewId, 0), (s.submittedAt, s.reviewId, 0))) ==>
              !Surviving(receipts, dismissals, r)
    ensures (exists d, at :: d in dismissals && d.reviewerId == r.reviewerId && Places(receipts, d, at) &&
                             Sooner((r.submittedAt, r.reviewId, 0), (at, d.reviewId, 1))) ==>
              !Surviving(receipts, dismissals, r)
  {
    hide Sooner, Places;
    if Surviving(receipts, dismissals, r) {
      var i: nat :| i < |receipts| && receipts[i] == r && Survives(receipts, dismissals, i);
      forall s | s in receipts && s.reviewerId == r.reviewerId ensures !Sooner(ReceiptKey(r), ReceiptKey(s)) {
        var j :| 0 <= j < |receipts| && receipts[j] == s;
        SoonerOrders(ReceiptKey(s), ReceiptKey(r));
      }
      forall d, at | d in dismissals && d.reviewerId == r.reviewerId && Places(receipts, d, at)
        ensures !Sooner(ReceiptKey(r), (at, d.reviewId, 1))
      {
        var other :| Places(receipts, d, other) && !Sooner((r.submittedAt, r.reviewId, 0), (other, d.reviewId, 1));
        PlaceExactly(receipts, d, at);
        PlaceExactly(receipts, d, other);
      }
    }
  }

  /** Two receipts of one reviewer whose times differ first at place k: the one with the larger character there is the
      only active one; at equal times, the one of the larger review. */
  lemma LaterOfTwo(r: Receipt, s: Receipt, k: nat)
    requires r.reviewerId == s.reviewerId
    requires || (k < |r.submittedAt| && k < |s.submittedAt| && r.submittedAt[..k] == s.submittedAt[..k] &&
                 r.submittedAt[k] < s.submittedAt[k])
             || (r.submittedAt == s.submittedAt && r.reviewId < s.reviewId)
    ensures forall x :: Surviving([r, s], [], x) <==> x == s
    ensures forall x :: Surviving([s, r], [], x) <==> x == s
  {
    assert Sooner(ReceiptKey(r), ReceiptKey(s));
    hide Sooner;
    SoonerOrders(ReceiptKey(r), ReceiptKey(s));
    assert Survives([r, s], [], 1) && Survives([s, r], [], 0);
    LaterRetires([r, s], [], r);
    LaterRetires([s, r], [], r);
  }

  // ----- what dismissals do

  /** A dismissed review is never active. */
  lemma DismissedIsInactive(receipts: seq<Receipt>, dismissals: seq<Dismissal>, r: Receipt, d: Dismissal)
    requires r in receipts && d in dismissals && d.reviewId == r.reviewId && Agrees(r, d)
    ensures !IsActive(receipts, dismissals, r)
  {
    assert PlacedAt(receipts, d, r.submittedAt);
    SoonerOrders((r.submittedAt, r.reviewId, 1), ReceiptKey(r));
  }

  /** The same in a validated ledger, where every dismissal agrees with its receipt. */
  lemma DismissedInValidLedger(z: Primitives, l: Ledger, r: Receipt, d: Dismissal)
    requires Valid(z, l) && r in l.receipts && d in l.dismissals && d.reviewId == r.reviewId
    ensures !IsActive(l.receipts, l.dismissals, r)
  {
    hide IsActive, UniqueBy, SourceOf, DeliveryCovered, Genuine, ReceiptHolds, ObservationHolds;
    assert r in multiset(l.receipts) && d in multiset(l.dismissals);
    assert DismissalHolds(z, multiset(l.deliveries), multiset(l.receipts), d);
    DismissedIsInactive(l.receipts, l.dismissals, r, d);
  }

  lemma ValidHasOneReceiptPerReview(z: Primitives, l: Ledger)
    requires Valid(z, l)
    ensures OneReceiptPerReview(l.receipts)
  {
    hide SourceOf, DeliveryCovered, Genuine, ReceiptHolds, ObservationHolds, DismissalHolds;
    forall r, s | r in l.receipts && s in l.receipts && r.reviewId == s.reviewId ensures r == s {
      assert r in multiset(l.receipts) && s in multiset(l.receipts) && ReviewId(r) == ReviewId(s);
    }
  }

  /** A further dismissal never makes a receipt active, and an unrelated reviewer is not affected by it. */
  lemma DismissalOnlyRemoves(receipts: seq<Receipt>, dismissals: seq<Dismissal>, d: Dismissal, r: Receipt)
    ensures IsActive(receipts, dismissals + [d], r) ==> IsActive(receipts, dismissals, r)
    ensures d.reviewerId != r.reviewerId ==>
              (IsActive(receipts, dismissals + [d], r) <==> IsActive(receipts, dismissals, r))
  {
    hide Sooner, PlacedAt, Unplaceable;
    assert forall x :: x in dismissals + [d] <==> x in dismissals || x == d;
  }

  /** The order of the records does not matter. */
  lemma OrderIrrelevant(receipts: seq<Receipt>, dismissals: seq<Dismissal>, rs: seq<Receipt>, ds: seq<Dismissal>,
                        r: Receipt)
    requires multiset(receipts) == multiset(rs) && multiset(dismissals) == multiset(ds)
    ensures IsActive(receipts, dismissals, r) <==> IsActive(rs, ds, r)
  {
    assert forall x :: x in receipts <==> x in multiset(receipts);
    assert forall x :: x in rs <==> x in multiset(rs);
    assert forall x :: x in dismissals <==> x in multiset(dismissals);
    assert forall x :: x in ds <==> x in multiset(ds);
    hide Sooner;
    forall d, at ensures PlacedAt(receipts, d, at) <==> PlacedAt(rs, d, at) {
    }
    forall d ensures Unplaceable(receipts, d) <==> Unplaceable(rs, d) {
    }
  }
}
