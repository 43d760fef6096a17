/** The consistency checks the evaluator makes on raw groups, and why the adapter's oracle always passes them. */
module RawEvaluation {
  import opened Wrappers
  import opened Connectivity
  import opened RawGroups

  datatype NodeKey = NodeKey(file: string, kind: string, start: nat, end: nat)

  datatype OracleRelation = OracleRelation(before: NodeKey, after: NodeKey, multiplicity: Multiplicity,
                                           groupId: Option<nat>)

  datatype RawMultiGroup = RawMultiGroup(id: nat, before: seq<NodeKey>, after: seq<NodeKey>)

  datatype EvaluationError =
    | DuplicateRawMultiGroupId(id: nat)
    | RawMultiGroupEndpointConflict(onBefore: bool, key: NodeKey, first: nat, second: nat)
    | InvalidOracleMultiGroupAssignment(index: nat)
    | OracleRelationOutsideRawMultiGroup(index: nat, id: nat)

  datatype Prepared = Prepared(eligible: set<nat>, before: map<NodeKey, nat>, after: map<NodeKey, nat>)

  // ----- the evaluator's checks

  function EndsOf(g: RawMultiGroup, onBefore: bool): seq<NodeKey> {
    if onBefore then g.before else g.after
  }

  /** No key is listed twice, in one group or in two. */
  ghost predicate KeysOnce(groups: seq<RawMultiGroup>, onBefore: bool) {
    && (forall g, x, y :: 0 <= g < |groups| && 0 <= x < y < |EndsOf(groups[g], onBefore)| ==>
                            EndsOf(groups[g], onBefore)[x] != EndsOf(groups[g], onBefore)[y])
    && (forall g, h, key :: 0 <= g < h < |groups| && key in EndsOf(groups[g], onBefore) ==>
                              key !in EndsOf(groups[h], onBefore))
  }

  ghost predicate IdsOnce(groups: seq<RawMultiGroup>) {
    forall g, h :: 0 <= g < h < |groups| ==> groups[g].id != groups[h].id
  }

  ghost predicate Lists(groups: seq<RawMultiGroup>, onBefore: bool, key: NodeKey, id: nat) {
    exists g :: 0 <= g < |groups| && groups[g].id == id && key in EndsOf(groups[g], onBefore)
  }

  /** A singleton relation touches no group; a multi relation has both its ends in the group it names. */
  ghost predicate Placed(groups: seq<RawMultiGroup>, o: OracleRelation) {
    match (o.multiplicity, o.groupId)
    case (Singleton, None) => forall id :: !Lists(groups, true, o.before, id) && !Lists(groups, false, o.after, id)
    case (Multi, Some(id)) => Lists(groups, true, o.before, id) && Lists(groups, false, o.after, id)
    case _ => false
  }

  ghost predicate WellGrouped(groups: seq<RawMultiGroup>, oracle: seq<OracleRelation>) {
    && IdsOnce(groups) && KeysOnce(groups, true) && KeysOnce(groups, false)
    && forall k :: 0 <= k < |oracle| ==> Placed(groups, oracle[k])
  }

  ghost predicate Indexed(groups: seq<RawMultiGroup>, onBefore: bool, index: map<NodeKey, nat>) {
    forall key :: (key in index ==> Lists(groups, onBefore, key, index[key])) &&
                  (forall id :: Lists(groups, onBefore, key, id) ==> key in index && index[key] == id)
  }

  lemma ListsSnoc(groups: seq<RawMultiGroup>, g: RawMultiGroup, onBefore: bool, key: NodeKey, id: nat)
    ensures Lists(groups + [g], onBefore, key, id) <==>
            Lists(groups, onBefore, key, id) || (id == g.id && key in EndsOf(g, onBefore))
  {
    var more := groups + [g];
    if Lists(groups, onBefore, key, id) {
      var h :| 0 <= h < |groups| && groups[h].id == id && key in EndsOf(groups[h], onBefore);
      assert more[h] == groups[h];
    }
    assert more[|groups|] == g;
  }

  ghost predicate NewKeys(endpoints: seq<NodeKey>, index: map<NodeKey, nat>) {
    && (forall x, y :: 0 <= x < y < |endpoints| ==> endpoints[x] != endpoints[y])
    && (forall key :: key in endpoints ==> key !in index)
  }

  /** Inserting the endpoints of one group succeeds when none of them is listed before, here or elsewhere. */
  method InsertRawGroupEndpoints(onBefore: bool, id: nat, endpoints: seq<NodeKey>, index: map<NodeKey, nat>)
    returns (result: Result<map<NodeKey, nat>, EvaluationError>)
    ensures result.Ok? <==> NewKeys(endpoints, index)
    ensures result.Ok? ==> forall key :: (key in result.value <==> key in index || key in endpoints) &&
                                         (key in result.value ==>
                                          result.value[key] == if key in index then index[key] else id)
    ensures result.Err? ==> result.error.RawMultiGroupEndpointConflict?
  {
    var updated := index;
    for n := 0 to |endpoints|
      invariant forall key :: key in updated <==> key in index || key in endpoints[..n]
      invariant forall key :: key in updated ==> updated[key] == if key in index then index[key] else id
      invariant forall x, y :: 0 <= x < y < n ==> endpoints[x] != endpoints[y]
      invariant forall key :: key in endpoints[..n] ==> key !in index
    {
      var key := endpoints[n];
      if key in updated {
        return Err(RawMultiGroupEndpointConflict(onBefore, key, updated[key], id));
      }
      updated := updated[key := id];
    }
    assert endpoints[..|endpoints|] == endpoints;
    return Ok(updated);
  }

  lemma GroupIndexed(groups: seq<RawMultiGroup>, g: RawMultiGroup, onBefore: bool, index: map<NodeKey, nat>,
                     more: map<NodeKey, nat>)
    requires Indexed(groups, onBefore, index) && KeysOnce(groups, onBefore)
    requires NewKeys(EndsOf(g, onBefore), index)
    requires forall key :: (key in more <==> key in index || key in EndsOf(g, onBefore)) &&
                           (key in more ==> more[key] == if key in index then index[key] else g.id)
    ensures Indexed(groups + [g], onBefore, more) && KeysOnce(groups + [g], onBefore)
  {
    hide Lists;
    forall key, id {
      ListsSnoc(groups, g, onBefore, key, id);
    }
    forall h, key | 0 <= h < |groups| && key in EndsOf(groups[h], onBefore) ensures key !in EndsOf(g, onBefore) {
      ListsAt(groups, onBefore, h, key);
    }
  }

  lemma ListsAt(groups: seq<RawMultiGroup>, onBefore: bool, h: nat, key: NodeKey)
    requires h < |groups| && key in EndsOf(groups[h], onBefore)
    ensures Lists(groups, onBefore, key, groups[h].id)
  {
  }

  lemma ConflictMeansTwice(groups: seq<RawMultiGroup>, n: nat, onBefore: bool, index: map<NodeKey, nat>)
    requires n < |groups| && Indexed(groups[..n], onBefore, index)
    requires !NewKeys(EndsOf(groups[n], onBefore), index)
    ensures !KeysOnce(groups, onBefore)
  {
    if key :| key in EndsOf(groups[n], onBefore) && key in index {
      assert Lists(groups[..n], onBefore, key, index[key]);
      var h :| 0 <= h < n && groups[..n][h].id == index[key] && key in EndsOf(groups[..n][h], onBefore);
      assert key in EndsOf(groups[h], onBefore) && key in EndsOf(groups[n], onBefore);
    }
  }

  /** The evaluator accepts exactly the well-grouped oracles, and then indexes every endpoint by its one group. */
  method PrepareRawMultiGroups(groups: seq<RawMultiGroup>, oracle: seq<OracleRelation>)
    returns (result: Result<Prepared, EvaluationError>)
    ensures result.Ok? <==> WellGrouped(groups, oracle)
    ensures result.Ok? ==> Indexed(groups, true, result.value.before) && Indexed(groups, false, result.value.after)
    ensures result.Ok? ==>
              forall id :: id in result.value.eligible <==>
                           exists k :: 0 <= k < |oracle| && oracle[k].groupId == Some(id)
  {
    hide Indexed, KeysOnce, Placed;
    var ids: set<nat> := {};
    var before: map<NodeKey, nat>, after: map<NodeKey, nat> := map[], map[];
    NothingIndexed();
    for n := 0 to |groups|
      invariant IdsOnce(groups[..n]) && KeysOnce(groups[..n], true) && KeysOnce(groups[..n], false)
      invariant Indexed(groups[..n], true, before) && Indexed(groups[..n], false, after)
      invariant forall id :: id in ids <==> exists g :: 0 <= g < n && groups[g].id == id
    {
      var group := groups[n];
      assert groups[..n + 1] == groups[..n] + [group];
      if group.id in ids {
        return Err(DuplicateRawMultiGroupId(group.id));
      }
      ids := ids + {group.id};
      var inserted := InsertRawGroupEndpoints(true, group.id, group.before, before);
      if inserted.Err? {
        ConflictMeansTwice(groups, n, true, before);
        return Err(inserted.error);
      }
      GroupIndexed(groups[..n], group, true, before, inserted.value);
      before := inserted.value;
      inserted := InsertRawGroupEndpoints(false, group.id, group.after, after);
      if inserted.Err? {
        ConflictMeansTwice(groups, n, false, after);
        return Err(inserted.error);
      }
      GroupIndexed(groups[..n], group, false, after, inserted.value);
      after := inserted.value;
    }
    assert groups[..|groups|] == groups;
    var eligible: set<nat> := {};
    for k := 0 to |oracle|
      invariant forall j :: 0 <= j < k ==> Placed(groups, oracle[j])
      invariant forall id :: id in eligible <==> exists j :: 0 <= j < k && oracle[j].groupId == Some(id)
    {
      var o := oracle[k];
      PlacedByIndex(groups, before, after, ids, o);
      match (o.multiplicity, o.groupId) {
        case (Singleton, None) =>
          if o.before in before || o.after in after {
            return Err(InvalidOracleMultiGroupAssignment(k));
          }
        case (Multi, Some(id)) =>
          if id !in ids {
            return Err(InvalidOracleMultiGroupAssignment(k));
          }
          if !(o.before in before && before[o.before] == id) || !(o.after in after && after[o.after] == id) {
            return Err(OracleRelationOutsideRawMultiGroup(k, id));
          }
          eligible := eligible + {id};
        case _ =>
          return Err(InvalidOracleMultiGroupAssignment(k));
      }
    }
    return Ok(Prepared(eligible, before, after));
  }

  lemma NothingIndexed()
    ensures IdsOnce([]) && KeysOnce([], true) && KeysOnce([], false)
    ensures Indexed([], true, map[]) && Indexed([], false, map[])
  {
  }

  lemma PlacedByIndex(groups: seq<RawMultiGroup>, before: map<NodeKey, nat>, after: map<NodeKey, nat>, ids: set<nat>,
                      o: OracleRelation)
    requires Indexed(groups, true, before) && Indexed(groups, false, after)
    requires forall id :: id in ids <==> exists g :: 0 <= g < |groups| && groups[g].id == id
    ensures Placed(groups, o) <==>
            match (o.multiplicity, o.groupId)
            case (Singleton, None) => o.before !in before && o.after !in after
            case (Multi, Some(id)) =>
              id in ids && o.before in before && before[o.before] == id && o.after in after && after[o.after] == id
            case _ => false
  {
    match (o.multiplicity, o.groupId)
    case (Singleton, None) =>
      if o.before in before {
        assert Lists(groups, true, o.before, before[o.before]);
      }
      if o.after in after {
        assert Lists(groups, false, o.after, after[o.after]);
      }
    case (Multi, Some(id)) =>
      if Lists(groups, true, o.before, id) {
        var g :| 0 <= g < |groups| && groups[g].id == id && o.before in EndsOf(groups[g], true);
        assert id in ids;
      }
    case _ =>
  }
}
