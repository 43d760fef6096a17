/** Hash buckets: the ids of one tree, grouped by an index key. */
module Buckets {
  import opened Wrappers
  import opened Syntax

  /** What an index looks at: the shape or the syntax of a child, or the syntax of any subtree regardless of field. */
  datatype KeyKind = ByShape | BySyntax | BySubtree

  datatype NodeKey = NodeKey(field: Option<string>, kind: string, hash: Hash)

  function KeyOf(t: Tree, what: KeyKind, id: nat): NodeKey
    requires id < |t.nodes|
  {
    var node := t.nodes[id];
    match what
    case ByShape => NodeKey(node.field, node.kind, node.shapeHash)
    case BySyntax => NodeKey(node.field, node.kind, node.syntaxHash)
    case BySubtree => NodeKey(None, node.kind, node.syntaxHash)
  }

  /** Of one kind and one digest, of the shape or of the syntax, and unless the index looks at whole subtrees in one
      field. */
  ghost predicate Alike(s: Tree, x: nat, t: Tree, y: nat, what: KeyKind)
    requires x < |s.nodes| && y < |t.nodes|
  {
    && s.nodes[x].kind == t.nodes[y].kind
    && (if what == ByShape then s.nodes[x].shapeHash == t.nodes[y].shapeHash
        else s.nodes[x].syntaxHash == t.nodes[y].syntaxHash)
    && (what != BySubtree ==> s.nodes[x].field == t.nodes[y].field)
  }

  /** Two ids have one key exactly when they are alike. */
  lemma KeyExactly(s: Tree, x: nat, t: Tree, y: nat, what: KeyKind)
    requires x < |s.nodes| && y < |t.nodes|
    ensures KeyOf(s, what, x) == KeyOf(t, what, y) <==> Alike(s, x, t, y, what)
  {
  }

  ghost predicate ValidIds(t: Tree, ids: seq<nat>) {
    && WellFormed(t)
    && Within(t, ids) && Distinct(ids)
  }

  ghost predicate Distinct(ids: seq<nat>) {
    forall j, k :: 0 <= j < k < |ids| ==> ids[j] != ids[k]
  }

  ghost predicate Within(t: Tree, ids: seq<nat>) {
    forall k :: 0 <= k < |ids| ==> ids[k] < |t.nodes|
  }

  /** The ids with a given key, in their order. */
  function WithKey(t: Tree, what: KeyKind, ids: seq<nat>, key: NodeKey): (r: seq<nat>)
    requires Within(t, ids)
    ensures Within(t, r)
    ensures forall id :: id in r <==> id in ids && id < |t.nodes| && KeyOf(t, what, id) == key
  {
    if ids == [] then []
    else
      var last := ids[|ids| - 1];
      var rest := WithKey(t, what, ids[..|ids| - 1], key);
      assert ids == ids[..|ids| - 1] + [last];
      if KeyOf(t, what, last) == key then rest + [last] else rest
  }

  lemma {:induction false} WithKeyDistinct(t: Tree, what: KeyKind, ids: seq<nat>, key: NodeKey)
    requires ValidIds(t, ids)
    ensures ValidIds(t, WithKey(t, what, ids, key))
    decreases |ids|
  {
    if ids != [] {
      var shorter := ids[..|ids| - 1];
      WithKeyDistinct(t, what, shorter, key);
      assert ids[|ids| - 1] !in shorter;
    }
  }

  ghost predicate Bucketed(t: Tree, what: KeyKind, ids: seq<nat>, buckets: map<NodeKey, seq<nat>>)
    requires Within(t, ids)
  {
    forall key :: (key in buckets <==> WithKey(t, what, ids, key) != []) &&
                  (key in buckets ==> buckets[key] == WithKey(t, what, ids, key))
  }

  method BuildBuckets(t: Tree, what: KeyKind, ids: seq<nat>) returns (buckets: map<NodeKey, seq<nat>>)
    requires ValidIds(t, ids)
    ensures Bucketed(t, what, ids, buckets)
  {
    hide WellFormed;
    buckets := map[];
    for n := 0 to |ids|
      invariant Bucketed(t, what, ids[..n], buckets)
    {
      var key := KeyOf(t, what, ids[n]);
      assert ids[..n + 1][..n] == ids[..n];
      buckets := buckets[key := (if key in buckets then buckets[key] else []) + [ids[n]]];
    }
    assert ids[..|ids|] == ids;
  }
}
