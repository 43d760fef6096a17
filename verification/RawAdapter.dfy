/** Adapting one category of raw records: every record is scored or excluded once, and the oracle built is one the
    evaluator accepts. */
module RawAdapter {
  import opened Wrappers
  import opened Connectivity
  import opened RawGroups
  import opened RawEvaluation

  /** What the parser of the other side found at an endpoint: a role and a byte range. */
  datatype Comparable = Comparable(role: nat, start: nat, end: nat)

  datatype GoldNode = GoldNode(key: NodeKey, comparable: Comparable)

  datatype ExclusionReason =
    | InfoParseError
    | EndpointFailures(beforeFailed: bool, afterFailed: bool)
    | RoleMismatch(beforeRole: nat, afterRole: nat)

  datatype Exclusion = Exclusion(index: nat, groupId: Option<nat>, reason: ExclusionReason)

  datatype Outcome = Scored(relation: OracleRelation) | Excluded(exclusion: Exclusion)

  /** The files of a case, the resolvers of their endpoints, and the parsed and grouped records. */
  datatype Context = Context(beforeFile: string, afterFile: string, resolveBefore: Endpoint -> Option<Comparable>,
                             resolveAfter: Endpoint -> Option<Comparable>, parsed: seq<Parsed>,
                             assignments: seq<Option<Assignment>>)

  datatype AdaptError = DuplicateInfo(first: nat, second: nat) | ConflictingNode | CoverageMismatch

  datatype Adapted = Adapted(relations: seq<OracleRelation>, groups: seq<RawMultiGroup>,
                             before: map<NodeKey, GoldNode>, after: map<NodeKey, GoldNode>, exclusions: seq<Exclusion>)

  ghost predicate Ready(c: Context) {
    Assigned(c.parsed, c.assignments)
  }

  function KeyAt(file: string, e: Endpoint): NodeKey {
    NodeKey(file, e.kind, e.start, e.end)
  }

  function OutcomeOf(c: Context, i: nat): Outcome
    requires i < |c.parsed| == |c.assignments| && (c.assignments[i].Some? <==> c.parsed[i].Mapping?)
  {
    if c.parsed[i].InvalidInfo? then Excluded(Exclusion(i, None, InfoParseError))
    else
      var mapping, group := c.parsed[i], c.assignments[i].value;
      var before, after := c.resolveBefore(mapping.before), c.resolveAfter(mapping.after);
      if before.None? || after.None? then
        Excluded(Exclusion(i, Some(group.id), EndpointFailures(before.None?, after.None?)))
      else if before.value.role != after.value.role then
        Excluded(Exclusion(i, Some(group.id), RoleMismatch(before.value.role, after.value.role)))
      else
        Scored(OracleRelation(KeyAt(c.beforeFile, mapping.before), KeyAt(c.afterFile, mapping.after),
                              group.multiplicity, if group.multiplicity == Multi then Some(group.id) else None))
  }

  ghost function RelationsUpTo(c: Context, n: nat): seq<OracleRelation>
    requires Ready(c) && n <= |c.parsed|
  {
    if n == 0 then []
    else match OutcomeOf(c, n - 1)
         case Scored(relation) => RelationsUpTo(c, n - 1) + [relation]
         case Excluded(_) => RelationsUpTo(c, n - 1)
  }

  ghost function ExclusionsUpTo(c: Context, n: nat): seq<Exclusion>
    requires Ready(c) && n <= |c.parsed|
  {
    if n == 0 then []
    else match OutcomeOf(c, n - 1)
         case Scored(_) => ExclusionsUpTo(c, n - 1)
         case Excluded(exclusion) => ExclusionsUpTo(c, n - 1) + [exclusion]
  }

  lemma {:induction false} CoverageAddsUp(c: Context, n: nat)
    requires Ready(c) && n <= |c.parsed|
    ensures |RelationsUpTo(c, n)| + |ExclusionsUpTo(c, n)| == n
    decreases n
  {
    if n > 0 {
      CoverageAddsUp(c, n - 1);
    }
  }

  /** Every scored relation comes from one parsed record. */
  lemma {:induction false} RelationOrigin(c: Context, n: nat, k: nat) returns (i: nat)
    requires Ready(c) && n <= |c.parsed| && k < |RelationsUpTo(c, n)|
    ensures i < n && OutcomeOf(c, i) == Scored(RelationsUpTo(c, n)[k])
    decreases n
  {
    if OutcomeOf(c, n - 1).Scored? && k == |RelationsUpTo(c, n)| - 1 {
      i := n - 1;
    } else {
      i := RelationOrigin(c, n - 1, k);
    }
  }

  // ----- groups

  /** The record is a multi relation of the group and its end on this side resolves to the key. */
  ghost predicate Contributes(c: Context, i: nat, id: nat, onBefore: bool, key: NodeKey)
    requires Ready(c) && i < |c.parsed|
  {
    && c.parsed[i].Mapping? && c.assignments[i].value == Assignment(id, Multi)
    && if onBefore then key == KeyAt(c.beforeFile, c.parsed[i].before) && c.resolveBefore(c.parsed[i].before).Some?
       else key == KeyAt(c.afterFile, c.parsed[i].after) && c.resolveAfter(c.parsed[i].after).Some?
  }

  ghost predicate KeyOfGroup(c: Context, n: nat, id: nat, onBefore: bool, key: NodeKey)
    requires Ready(c) && n <= |c.parsed|
  {
    exists i: nat :: i < n && Contributes(c, i, id, onBefore, key)
  }

  ghost predicate IsMultiId(c: Context, n: nat, id: nat)
    requires Ready(c) && n <= |c.parsed|
  {
    exists i: nat :: i < n && c.parsed[i].Mapping? && c.assignments[i].value == Assignment(id, Multi)
  }

  datatype Builder = Builder(before: set<NodeKey>, after: set<NodeKey>)

  ghost predicate BuiltUpTo(c: Context, n: nat, builders: map<nat, Builder>)
    requires Ready(c) && n <= |c.parsed|
  {
    && (forall id :: id in builders <==> IsMultiId(c, |c.parsed|, id))
    && (forall id, key :: id in builders ==> (key in builders[id].before <==> KeyOfGroup(c, n, id, true, key)))
    && (forall id, key :: id in builders ==> (key in builders[id].after <==> KeyOfGroup(c, n, id, false, key)))
  }

  lemma KeyOfGroupNext(c: Context, n: nat, id: nat, onBefore: bool, key: NodeKey)
    requires Ready(c) && n < |c.parsed|
    ensures KeyOfGroup(c, n + 1, id, onBefore, key) <==>
            KeyOfGroup(c, n, id, onBefore, key) || Contributes(c, n, id, onBefore, key)
  {
    hide Contributes;
    if KeyOfGroup(c, n, id, onBefore, key) {
      var i: nat :| i < n && Contributes(c, i, id, onBefore, key);
    }
  }

  method StartBuilders(c: Context) returns (builders: map<nat, Builder>)
    requires Ready(c)
    ensures BuiltUpTo(c, 0, builders)
  {
    hide Assigned;
    AssignedParts(c);
    builders := map[];
    for i := 0 to |c.parsed|
      invariant forall id :: id in builders <==> IsMultiId(c, i, id)
      invariant forall id :: id in builders ==> builders[id] == Builder({}, {})
    {
      if c.assignments[i].Some? && c.assignments[i].value.multiplicity == Multi {
        builders := builders[c.assignments[i].value.id := Builder({}, {})];
      }
    }
  }

  lemma AssignedParts(c: Context)
    requires Ready(c)
    ensures |c.assignments| == |c.parsed|
    ensures forall i: nat :: i < |c.parsed| ==> (c.assignments[i].Some? <==> c.parsed[i].Mapping?)
  {
  }

  method AddEndpoints(c: Context, n: nat, builders: map<nat, Builder>) returns (updated: map<nat, Builder>)
    requires Ready(c) && n < |c.parsed| && BuiltUpTo(c, n, builders)
    ensures BuiltUpTo(c, n + 1, updated)
  {
    hide Assigned, KeyOfGroup;
    AssignedParts(c);
    forall id, onBefore, key {
      KeyOfGroupNext(c, n, id, onBefore, key);
    }
    updated := builders;
    if c.parsed[n].Mapping? && c.assignments[n].value.multiplicity == Multi {
      var id := c.assignments[n].value.id;
      assert IsMultiId(c, |c.parsed|, id);
      var builder := builders[id];
      var before, after := c.resolveBefore(c.parsed[n].before), c.resolveAfter(c.parsed[n].after);
      if before.Some? {
        builder := builder.(before := builder.before + {KeyAt(c.beforeFile, c.parsed[n].before)});
      }
      if after.Some? {
        builder := builder.(after := builder.after + {KeyAt(c.afterFile, c.parsed[n].after)});
      }
      updated := builders[id := builder];
    }
  }

  /** The members of a set, once each. */
  method Enumerate(keys: set<NodeKey>) returns (list: seq<NodeKey>)
    ensures forall key :: key in list <==> key in keys
    ensures forall x, y :: 0 <= x < y < |list| ==> list[x] != list[y]
  {
    list := [];
    var rest := keys;
    while rest != {}
      invariant rest <= keys && forall key :: key in list <==> key in keys - rest
      invariant forall x, y :: 0 <= x < y < |list| ==> list[x] != list[y]
      decreases |rest|
    {
      var key :| key in rest;
      assert key !in list;
      ListedNext(keys, rest, list, key);
      rest := rest - {key};
      list := list + [key];
    }
  }

  lemma ListedNext(keys: set<NodeKey>, rest: set<NodeKey>, list: seq<NodeKey>, key: NodeKey)
    requires rest <= keys && key in rest && forall k :: k in list <==> k in keys - rest
    ensures forall k :: k in list + [key] <==> k in keys - (rest - {key})
  {
    forall k ensures k in list + [key] <==> k in keys - (rest - {key}) {
      assert k in list + [key] <==> k in list || k == key;
    }
  }

  ghost predicate GroupsOf(c: Context, limit: nat, groups: seq<RawMultiGroup>)
    requires Ready(c)
  {
    && (forall g, h :: 0 <= g < h < |groups| ==> groups[g].id < groups[h].id)
    && (forall g :: 0 <= g < |groups| ==> groups[g].id < limit && IsMultiId(c, |c.parsed|, groups[g].id))
    && (forall id: nat :: id < limit && IsMultiId(c, |c.parsed|, id) ==>
                              exists g :: 0 <= g < |groups| && groups[g].id == id)
    && (forall g :: 0 <= g < |groups| ==> KeysOf(c, groups[g], true) && KeysOf(c, groups[g], false))
  }

  ghost predicate KeysOf(c: Context, g: RawMultiGroup, onBefore: bool)
    requires Ready(c)
  {
    && (forall key :: key in EndsOf(g, onBefore) <==> KeyOfGroup(c, |c.parsed|, g.id, onBefore, key))
    && (forall x, y :: 0 <= x < y < |EndsOf(g, onBefore)| ==> EndsOf(g, onBefore)[x] != EndsOf(g, onBefore)[y])
  }

  method FinishGroups(c: Context, builders: map<nat, Builder>) returns (groups: seq<RawMultiGroup>)
    requires Ready(c) && BuiltUpTo(c, |c.parsed|, builders)
    ensures GroupsOf(c, |c.parsed|, groups)
  {
    hide Assigned, KeyOfGroup, IsMultiId;
    groups := [];
    for id := 0 to |c.parsed|
      invariant GroupsOf(c, id, groups)
    {
      ghost var shorter := groups;
      if id in builders {
        var before := Enumerate(builders[id].before);
        var after := Enumerate(builders[id].after);
        groups := groups + [RawMultiGroup(id, before, after)];
        assert groups[|shorter|].id == id;
        assert forall g :: 0 <= g < |shorter| ==> groups[g] == shorter[g];
      }
    }
  }

  /** A key in two groups would be a shared endpoint, and a shared endpoint makes one group. */
  lemma SharedKeyOneGroup(c: Context, i: nat, j: nat, id: nat, onBefore: bool, key: NodeKey)
    requires Ready(c) && i < |c.parsed| && j < |c.parsed| && c.parsed[i].Mapping?
    requires key == if onBefore then KeyAt(c.beforeFile, c.parsed[i].before) else KeyAt(c.afterFile, c.parsed[i].after)
    requires Contributes(c, j, id, onBefore, key)
    ensures c.assignments[i].value == Assignment(id, Multi)
  {
    assert Shares(c.parsed, i, j) && Shares(c.parsed, j, i);
    EdgeConnects(SharedEdges(c.parsed), i, j);
    EdgeConnects(SharedEdges(c.parsed), j, i);
    hide SameGroup, SharedEdges, Shares;
    assert SameGroup(c.parsed, i, j);
    assert GoodAssignment(c.parsed, i, c.assignments[i].value);
    if i != j {
      assert Companion(c.parsed, i, j);
    }
  }

  lemma GroupsAccepted(c: Context, groups: seq<RawMultiGroup>, onBefore: bool)
    requires Ready(c) && GroupsOf(c, |c.parsed|, groups)
    ensures IdsOnce(groups) && KeysOnce(groups, onBefore)
  {
    hide Assigned, IsMultiId, Contributes;
    forall g, h, key | 0 <= g < h < |groups| && key in EndsOf(groups[g], onBefore)
      ensures key !in EndsOf(groups[h], onBefore)
    {
      assert KeysOf(c, groups[g], onBefore) && KeysOf(c, groups[h], onBefore);
      if key in EndsOf(groups[h], onBefore) {
        var i: nat :| i < |c.parsed| && Contributes(c, i, groups[g].id, onBefore, key);
        var j: nat :| j < |c.parsed| && Contributes(c, j, groups[h].id, onBefore, key);
        ContributorParsed(c, i, groups[g].id, onBefore, key);
        SharedKeyOneGroup(c, i, j, groups[h].id, onBefore, key);
      }
    }
    forall g | 0 <= g < |groups|
      ensures forall x, y :: 0 <= x < y < |EndsOf(groups[g], onBefore)| ==>
                               EndsOf(groups[g], onBefore)[x] != EndsOf(groups[g], onBefore)[y]
    {
      assert KeysOf(c, groups[g], onBefore);
    }
  }

  lemma ContributorParsed(c: Context, i: nat, id: nat, onBefore: bool, key: NodeKey)
    requires Ready(c) && i < |c.parsed| && Contributes(c, i, id, onBefore, key)
    ensures c.parsed[i].Mapping? && c.assignments[i].value.id == id
    ensures key == if onBefore then KeyAt(c.beforeFile, c.parsed[i].before) else KeyAt(c.afterFile, c.parsed[i].after)
  {
  }

  lemma ListsKeyOfGroup(c: Context, groups: seq<RawMultiGroup>, onBefore: bool, key: NodeKey, id: nat)
    requires Ready(c) && GroupsOf(c, |c.parsed|, groups)
    ensures Lists(groups, onBefore, key, id) ==> KeyOfGroup(c, |c.parsed|, id, onBefore, key)
    ensures id < |c.parsed| && IsMultiId(c, |c.parsed|, id) && KeyOfGroup(c, |c.parsed|, id, onBefore, key) ==>
              Lists(groups, onBefore, key, id)
  {
    hide Assigned, IsMultiId, KeyOfGroup;
    if Lists(groups, onBefore, key, id) {
      var g :| 0 <= g < |groups| && groups[g].id == id && key in EndsOf(groups[g], onBefore);
      assert KeysOf(c, groups[g], onBefore);
    }
    if id < |c.parsed| && IsMultiId(c, |c.parsed|, id) && KeyOfGroup(c, |c.parsed|, id, onBefore, key) {
      var g :| 0 <= g < |groups| && groups[g].id == id;
      assert KeysOf(c, groups[g], onBefore);
    }
  }

  lemma ScoredIsPlaced(c: Context, groups: seq<RawMultiGroup>, i: nat)
    requires Ready(c) && GroupsOf(c, |c.parsed|, groups) && i < |c.parsed| && OutcomeOf(c, i).Scored?
    ensures Placed(groups, OutcomeOf(c, i).relation)
  {
    AssignedParts(c);
    hide GroupsOf, Lists, IsMultiId, KeyOfGroup, SameGroup;
    var o := OutcomeOf(c, i).relation;
    var assignment := c.assignments[i].value;
    if assignment.multiplicity == Multi {
      assert GoodAssignment(c.parsed, i, assignment);
      ContributorCounts(c, i, assignment.id, true, o.before);
      ContributorCounts(c, i, assignment.id, false, o.after);
      ListsKeyOfGroup(c, groups, true, o.before, assignment.id);
      ListsKeyOfGroup(c, groups, false, o.after, assignment.id);
    } else {
      forall id: nat ensures !Lists(groups, true, o.before, id) && !Lists(groups, false, o.after, id) {
        SingletonUnlisted(c, groups, i, id, true, o.before);
        SingletonUnlisted(c, groups, i, id, false, o.after);
      }
    }
  }

  lemma SingletonUnlisted(c: Context, groups: seq<RawMultiGroup>, i: nat, id: nat, onBefore: bool, key: NodeKey)
    requires Ready(c) && GroupsOf(c, |c.parsed|, groups) && i < |c.parsed| && c.parsed[i].Mapping?
    requires c.assignments[i].value.multiplicity == Singleton
    requires key == if onBefore then KeyAt(c.beforeFile, c.parsed[i].before) else KeyAt(c.afterFile, c.parsed[i].after)
    ensures !Lists(groups, onBefore, key, id)
  {
    hide GroupsOf, Lists, KeyOfGroup;
    ListsKeyOfGroup(c, groups, onBefore, key, id);
    if Lists(groups, onBefore, key, id) {
      SingletonTouchesNone(c, i, id, onBefore, key);
    }
  }

  lemma ContributorCounts(c: Context, i: nat, id: nat, onBefore: bool, key: NodeKey)
    requires Ready(c) && i < |c.parsed| && Contributes(c, i, id, onBefore, key)
    ensures IsMultiId(c, |c.parsed|, id) && KeyOfGroup(c, |c.parsed|, id, onBefore, key)
  {
  }

  lemma SingletonTouchesNone(c: Context, i: nat, id: nat, onBefore: bool, key: NodeKey)
    requires Ready(c) && i < |c.parsed| && c.parsed[i].Mapping?
    requires key == if onBefore then KeyAt(c.beforeFile, c.parsed[i].before) else KeyAt(c.afterFile, c.parsed[i].after)
    requires KeyOfGroup(c, |c.parsed|, id, onBefore, key)
    ensures c.assignments[i].value.multiplicity == Multi
  {
    hide Assigned, Contributes;
    var j: nat :| j < |c.parsed| && Contributes(c, j, id, onBefore, key);
    SharedKeyOneGroup(c, i, j, id, onBefore, key);
  }

  /** The oracle the adapter builds never triggers a raw-group error in the evaluator. */
  lemma OracleAccepted(c: Context, groups: seq<RawMultiGroup>)
    requires Ready(c) && GroupsOf(c, |c.parsed|, groups)
    ensures WellGrouped(groups, RelationsUpTo(c, |c.parsed|))
  {
    GroupsAccepted(c, groups, true);
    GroupsAccepted(c, groups, false);
    hide GroupsOf, Assigned, Placed, KeysOnce;
    forall k | 0 <= k < |RelationsUpTo(c, |c.parsed|)| ensures Placed(groups, RelationsUpTo(c, |c.parsed|)[k]) {
      var i := RelationOrigin(c, |c.parsed|, k);
      ScoredIsPlaced(c, groups, i);
    }
  }

  // ----- the whole category

  ghost predicate Duplicate(infos: seq<string>, i: nat, j: nat) {
    i < j < |infos| && infos[i] == infos[j]
  }

  method RejectDuplicateInfo(infos: seq<string>) returns (result: Option<AdaptError>)
    ensures result.None? <==> forall i: nat, j: nat :: !Duplicate(infos, i, j)
    ensures result.Some? ==> result.value.DuplicateInfo? && Duplicate(infos, result.value.first, result.value.second)
  {
    var first: map<string, nat> := map[];
    for n := 0 to |infos|
      invariant forall info :: info in first <==> info in infos[..n]
      invariant forall info :: info in first ==> first[info] < n && infos[first[info]] == info
      invariant forall i: nat, j: nat :: i < j < n ==> infos[i] != infos[j]
    {
      if infos[n] in first {
        assert Duplicate(infos, first[infos[n]], n);
        return Some(DuplicateInfo(first[infos[n]], n));
      }
      first := first[infos[n] := n];
    }
    return None;
  }

  function EndpointAt(key: NodeKey): Endpoint {
    Endpoint(key.kind, key.start, key.end)
  }

  /** The gold nodes of one side: every key carries what its endpoint resolves to. */
  ghost predicate GoldNodes(file: string, resolve: Endpoint -> Option<Comparable>, nodes: map<NodeKey, GoldNode>) {
    forall key :: key in nodes ==>
                    key.file == file && resolve(EndpointAt(key)) == Some(nodes[key].comparable) && nodes[key].key == key
  }

  /** Inserting fails only when one key carries two different nodes. */
  function InsertGoldNode(nodes: map<NodeKey, GoldNode>, node: GoldNode): Option<map<NodeKey, GoldNode>> {
    if node.key in nodes && nodes[node.key] != node then None else Some(nodes[node.key := node])
  }

  lemma NoConflict(file: string, resolve: Endpoint -> Option<Comparable>, nodes: map<NodeKey, GoldNode>, e: Endpoint)
    requires GoldNodes(file, resolve, nodes) && resolve(e).Some?
    ensures var inserted := InsertGoldNode(nodes, GoldNode(KeyAt(file, e), resolve(e).value));
            inserted.Some? && GoldNodes(file, resolve, inserted.value)
  {
    assert EndpointAt(KeyAt(file, e)) == e;
  }

  ghost predicate AdaptedFrom(c: Context, a: Adapted) {
    && Ready(c)
    && a.relations == RelationsUpTo(c, |c.parsed|) && a.exclusions == ExclusionsUpTo(c, |c.parsed|)
    && GroupsOf(c, |c.parsed|, a.groups)
    && GoldNodes(c.beforeFile, c.resolveBefore, a.before) && GoldNodes(c.afterFile, c.resolveAfter, a.after)
    && a.before.Keys == (set o | o in a.relations :: o.before) && a.after.Keys == (set o | o in a.relations :: o.after)
  }

  ghost predicate Parses(parse: string -> Parsed, infos: seq<string>, c: Context) {
    |c.parsed| == |infos| && forall i :: 0 <= i < |infos| ==> c.parsed[i] == parse(infos[i])
  }

  // ----- which records are scored, and why the others are not

  /** The smallest record that a chain of shared endpoints links to record i. */
  ghost predicate FirstOfGroup(parsed: seq<Parsed>, i: nat, g: nat) {
    && g < |parsed| && parsed[g].Mapping? && SameGroup(parsed, i, g)
    && forall j: nat :: j < |parsed| && parsed[j].Mapping? && SameGroup(parsed, i, j) ==> g <= j
  }

  ghost predicate Alone(parsed: seq<Parsed>, i: nat) {
    forall j: nat :: j < |parsed| && parsed[j].Mapping? && SameGroup(parsed, i, j) ==> j == i
  }

  /** Record i parsed, both its ends resolve, to one role, and the relation names these ends and the record's group if
      it shares it with another record. */
  ghost predicate Scores(c: Context, i: nat, o: OracleRelation)
    requires i < |c.parsed|
  {
    match c.parsed[i]
    case InvalidInfo => false
    case Mapping(b, a) =>
      && c.resolveBefore(b).Some? && c.resolveAfter(a).Some?
      && c.resolveBefore(b).value.role == c.resolveAfter(a).value.role
      && o.before == NodeKey(c.beforeFile, b.kind, b.start, b.end)
      && o.after == NodeKey(c.afterFile, a.kind, a.start, a.end)
      && (if Alone(c.parsed, i) then o.multiplicity == Singleton && o.groupId == None
          else o.multiplicity == Multi && o.groupId.Some? && FirstOfGroup(c.parsed, i, o.groupId.value))
  }

  /** Record i did not parse, or an end of it does not resolve, or its ends have two roles, and the exclusion says
      which. */
  ghost predicate Excludes(c: Context, i: nat, x: Exclusion)
    requires i < |c.parsed|
  {
    && x.index == i
    && match c.parsed[i]
       case InvalidInfo => x.groupId == None && x.reason == InfoParseError
       case Mapping(b, a) =>
         && x.groupId.Some? && FirstOfGroup(c.parsed, i, x.groupId.value)
         && match x.reason
            case InfoParseError => false
            case EndpointFailures(beforeFailed, afterFailed) =>
              && (beforeFailed || afterFailed)
              && (beforeFailed <==> c.resolveBefore(b) == None) && (afterFailed <==> c.resolveAfter(a) == None)
            case RoleMismatch(beforeRole, afterRole) =>
              && c.resolveBefore(b).Some? && beforeRole == c.resolveBefore(b).value.role
              && c.resolveAfter(a).Some? && afterRole == c.resolveAfter(a).value.role
              && beforeRole != afterRole
  }

  ghost predicate Increasing(places: seq<nat>, n: nat) {
    && (forall k :: 0 <= k < |places| ==> places[k] < n)
    && (forall j, k :: 0 <= j < k < |places| ==> places[j] < places[k])
  }

  /** Of the first n records, those at the scored places give the relations and all others the exclusions, both in the
      order of the records. */
  ghost predicate Divided(c: Context, n: nat, scored: seq<nat>, excluded: seq<nat>, relations: seq<OracleRelation>,
                          exclusions: seq<Exclusion>)
  {
    && n <= |c.parsed| && Increasing(scored, n) && Increasing(excluded, n)
    && (forall i: nat :: i < n ==> (i in scored <==> i !in excluded))
    && |scored| == |relations| && (forall k :: 0 <= k < |scored| ==> Scores(c, scored[k], relations[k]))
    && |excluded| == |exclusions| && (forall k :: 0 <= k < |excluded| ==> Excludes(c, excluded[k], exclusions[k]))
  }

  ghost predicate EveryRecordOnce(c: Context, relations: seq<OracleRelation>, exclusions: seq<Exclusion>) {
    exists scored, excluded :: Divided(c, |c.parsed|, scored, excluded, relations, exclusions)
  }

  lemma OutcomeExactly(c: Context, i: nat)
    requires Ready(c) && i < |c.parsed|
    ensures match OutcomeOf(c, i)
            case Scored(o) => Scores(c, i, o)
            case Excluded(x) => Excludes(c, i, x)
  {
    AssignedParts(c);
    hide SameGroup;
    if c.parsed[i].Mapping? {
      assert GoodAssignment(c.parsed, i, c.assignments[i].value);
      if c.assignments[i].value.multiplicity == Singleton {
        forall j: nat | j < |c.parsed| && c.parsed[j].Mapping? && SameGroup(c.parsed, i, j) ensures j == i {
          assert j != i ==> Companion(c.parsed, i, j);
        }
      }
    }
  }

  lemma {:induction false} DividedUpTo(c: Context, n: nat) returns (scored: seq<nat>, excluded: seq<nat>)
    requires Ready(c) && n <= |c.parsed|
    ensures Divided(c, n, scored, excluded, RelationsUpTo(c, n), ExclusionsUpTo(c, n))
    decreases n
  {
    hide Assigned, Scores, Excludes, OutcomeOf;
    scored, excluded := [], [];
    if n > 0 {
      scored, excluded := DividedUpTo(c, n - 1);
      AssignedParts(c);
      OutcomeExactly(c, n - 1);
      assert forall i: nat :: i < n - 1 ==> (i in scored <==> i !in excluded);
      if OutcomeOf(c, n - 1).Scored? {
        scored := scored + [n - 1];
      } else {
        excluded := excluded + [n - 1];
      }
    }
  }

  /** Distinct infos always adapt: no key conflicts, every record is scored or excluded once, and the evaluator accepts
      the oracle. */
  method AdaptCategory(infos: seq<string>, parse: string -> Parsed, beforeFile: string, afterFile: string,
                       resolveBefore: Endpoint -> Option<Comparable>, resolveAfter: Endpoint -> Option<Comparable>)
    returns (result: Result<Adapted, AdaptError>, ghost c: Context)
    ensures result.Ok? <==> forall i: nat, j: nat :: !Duplicate(infos, i, j)
    ensures result.Ok? ==> Parses(parse, infos, c) && AdaptedFrom(c, result.value)
    ensures result.Ok? ==> c.beforeFile == beforeFile && c.afterFile == afterFile &&
                           c.resolveBefore == resolveBefore && c.resolveAfter == resolveAfter
    ensures result.Ok? ==> EveryRecordOnce(c, result.value.relations, result.value.exclusions)
    ensures result.Ok? ==> |result.value.relations| + |result.value.exclusions| == |infos|
    ensures result.Ok? ==> WellGrouped(result.value.groups, result.value.relations)
    ensures result.Err? ==> result.error.DuplicateInfo?
  {
    hide Assigned, BuiltUpTo, GroupsOf, GoldNodes, WellGrouped, Duplicate, Divided;
    var parsed := seq(|infos|, i requires 0 <= i < |infos| => parse(infos[i]));
    c := Context(beforeFile, afterFile, resolveBefore, resolveAfter, parsed, []);
    var duplicate := RejectDuplicateInfo(infos);
    if duplicate.Some? {
      return Err(duplicate.value), c;
    }
    var assignments := RawGroupAssignments(parsed);
    var context := Context(beforeFile, afterFile, resolveBefore, resolveAfter, parsed, assignments);
    c := context;
    AssignedParts(c);
    var builders := StartBuilders(context);
    var relations: seq<OracleRelation>, exclusions: seq<Exclusion> := [], [];
    var before: map<NodeKey, GoldNode>, after: map<NodeKey, GoldNode> := map[], map[];
    NoGoldNodes(c);
    for n := 0 to |parsed|
      invariant BuiltUpTo(c, n, builders)
      invariant relations == RelationsUpTo(c, n) && exclusions == ExclusionsUpTo(c, n)
      invariant GoldNodes(c.beforeFile, c.resolveBefore, before) && GoldNodes(c.afterFile, c.resolveAfter, after)
      invariant before.Keys == (set o | o in relations :: o.before) && after.Keys == (set o | o in relations :: o.after)
    {
      builders := AddEndpoints(context, n, builders);
      match OutcomeOf(context, n) {
        case Excluded(exclusion) =>
          exclusions := exclusions + [exclusion];
        case Scored(relation) =>
          NoConflict(c.beforeFile, c.resolveBefore, before, parsed[n].before);
          NoConflict(c.afterFile, c.resolveAfter, after, parsed[n].after);
          var foundBefore, foundAfter := resolveBefore(parsed[n].before).value, resolveAfter(parsed[n].after).value;
          var insertedBefore := InsertGoldNode(before, GoldNode(relation.before, foundBefore));
          var insertedAfter := InsertGoldNode(after, GoldNode(relation.after, foundAfter));
          assert insertedBefore.Some? && insertedAfter.Some?;
          KeysAdded(relations, relation);
          before, after := insertedBefore.value, insertedAfter.value;
          relations := relations + [relation];
      }
    }
    CoverageAddsUp(c, |parsed|);
    assert |infos| == |relations| + |exclusions|;
    ghost var scored, excluded := DividedUpTo(c, |parsed|);
    var groups := FinishGroups(context, builders);
    OracleAccepted(c, groups);
    return Ok(Adapted(relations, groups, before, after, exclusions)), c;
  }

  lemma NoGoldNodes(c: Context)
    ensures GoldNodes(c.beforeFile, c.resolveBefore, map[]) && GoldNodes(c.afterFile, c.resolveAfter, map[])
  {
  }

  lemma KeysAdded(relations: seq<OracleRelation>, relation: OracleRelation)
    ensures (set o | o in relations + [relation] :: o.before) ==
            (set o | o in relations :: o.before) + {relation.before}
    ensures (set o | o in relations + [relation] :: o.after) == (set o | o in relations :: o.after) + {relation.after}
  {
    assert forall o :: o in relations + [relation] <==> o in relations || o == relation;
    assert relation in relations + [relation];
  }
}
