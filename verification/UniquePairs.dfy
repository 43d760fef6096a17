/** Pairing the ids whose key occurs exactly once on each side. */
module UniquePairs {
  import opened Wrappers
  import opened Finite
  import opened Syntax
  import opened Buckets
  import opened Mappings

  /** Both ids carry the key, and nothing else on either side does. */
  ghost predicate UniquelyKeyed(l: Tree, r: Tree, what: KeyKind, befores: seq<nat>, afters: seq<nat>, p: Pair,
                                key: NodeKey)
    requires Within(l, befores) && Within(r, afters)
  {
    WithKey(l, what, befores, key) == [p.0] && WithKey(r, what, afters, key) == [p.1]
  }

  ghost predicate UniquePair(l: Tree, r: Tree, what: KeyKind, befores: seq<nat>, afters: seq<nat>, p: Pair)
    requires Within(l, befores) && Within(r, afters)
  {
    exists key :: UniquelyKeyed(l, r, what, befores, afters, p, key)
  }

  /** The ids are alike, and neither has its like among the other ids of its side. */
  ghost predicate UniquelyAlike(l: Tree, r: Tree, what: KeyKind, befores: seq<nat>, afters: seq<nat>, p: Pair)
    requires Within(l, befores) && Within(r, afters)
  {
    && p.0 in befores && p.1 in afters && p.0 < |l.nodes| && p.1 < |r.nodes| && Alike(l, p.0, r, p.1, what)
    && (forall b :: b in befores && b < |l.nodes| && Alike(l, b, l, p.0, what) ==> b == p.0)
    && (forall a :: a in afters && a < |r.nodes| && Alike(r, a, r, p.1, what) ==> a == p.1)
  }

  lemma OnlyMember(s: seq<nat>, x: nat)
    requires Distinct(s)
    ensures s == [x] <==> x in s && forall y :: y in s ==> y == x
  {
    if x in s && forall y :: y in s ==> y == x {
      assert !(|s| > 1 && s[0] == s[1]);
      assert |s| > 1 ==> s[0] in s && s[1] in s;
      assert s[0] == x;
    }
  }

  lemma OnlyAlike(t: Tree, what: KeyKind, ids: seq<nat>, key: NodeKey, x: nat)
    requires ValidIds(t, ids)
    ensures WithKey(t, what, ids, key) == [x] <==>
            && x in ids && x < |t.nodes| && KeyOf(t, what, x) == key
            && forall y :: y in ids && y < |t.nodes| && Alike(t, y, t, x, what) ==> y == x
  {
    hide WellFormed, KeyOf, Alike;
    WithKeyDistinct(t, what, ids, key);
    OnlyMember(WithKey(t, what, ids, key), x);
    if x < |t.nodes| {
      forall y | y in ids && y < |t.nodes| ensures KeyOf(t, what, y) == KeyOf(t, what, x) <==> Alike(t, y, t, x, what) {
        KeyExactly(t, y, t, x, what);
      }
    }
  }

  lemma UniqueExactly(l: Tree, r: Tree, what: KeyKind, befores: seq<nat>, afters: seq<nat>, p: Pair)
    requires ValidIds(l, befores) && ValidIds(r, afters)
    ensures UniquePair(l, r, what, befores, afters, p) <==> UniquelyAlike(l, r, what, befores, afters, p)
  {
    hide WellFormed, KeyOf, Alike, WithKey;
    if UniquePair(l, r, what, befores, afters, p) {
      var key :| UniquelyKeyed(l, r, what, befores, afters, p, key);
      OnlyAlike(l, what, befores, key, p.0);
      OnlyAlike(r, what, afters, key, p.1);
      KeyExactly(l, p.0, r, p.1, what);
    }
    if UniquelyAlike(l, r, what, befores, afters, p) {
      var key := KeyOf(l, what, p.0);
      KeyExactly(l, p.0, r, p.1, what);
      OnlyAlike(l, what, befores, key, p.0);
      OnlyAlike(r, what, afters, key, p.1);
      assert UniquelyKeyed(l, r, what, befores, afters, p, key);
    }
  }

  ghost predicate OneToOne(pairs: seq<Pair>) {
    forall i, j :: 0 <= i < j < |pairs| ==> pairs[i].0 != pairs[j].0 && pairs[i].1 != pairs[j].1
  }

  lemma UniquePairMembers(l: Tree, r: Tree, what: KeyKind, befores: seq<nat>, afters: seq<nat>, p: Pair)
    requires Within(l, befores) && Within(r, afters) && UniquePair(l, r, what, befores, afters, p)
    ensures p.0 in befores && p.1 in afters && p.0 < |l.nodes| && p.1 < |r.nodes|
    ensures KeyOf(l, what, p.0) == KeyOf(r, what, p.1)
  {
    var key :| UniquelyKeyed(l, r, what, befores, afters, p, key);
    assert p.0 in WithKey(l, what, befores, key) && p.1 in WithKey(r, what, afters, key);
  }

  /** Different keys give pairs without a common endpoint. */
  lemma KeysSeparate(l: Tree, r: Tree, what: KeyKind, befores: seq<nat>, afters: seq<nat>, p: Pair, q: Pair,
                     key: NodeKey, other: NodeKey)
    requires Within(l, befores) && Within(r, afters) && key != other
    requires UniquelyKeyed(l, r, what, befores, afters, p, key) && UniquelyKeyed(l, r, what, befores, afters, q, other)
    ensures p.0 != q.0 && p.1 != q.1
  {
    assert p.0 in WithKey(l, what, befores, key) && q.0 in WithKey(l, what, befores, other);
    assert p.1 in WithKey(r, what, afters, key) && q.1 in WithKey(r, what, afters, other);
  }

  /** The unique pairs among the keys visited so far. */
  ghost predicate PairsOfKeys(l: Tree, r: Tree, what: KeyKind, befores: seq<nat>, afters: seq<nat>, pairs: seq<Pair>,
                              used: seq<NodeKey>, done: set<NodeKey>)
  {
    && Within(l, befores) && Within(r, afters) && |used| == |pairs|
    && (forall k :: 0 <= k < |pairs| ==>
                      used[k] in done && UniquelyKeyed(l, r, what, befores, afters, pairs[k], used[k]))
    && (forall j, k :: 0 <= j < k < |used| ==> used[j] != used[k])
    && (forall p: Pair, key :: key in done && UniquelyKeyed(l, r, what, befores, afters, p, key) ==> p in pairs)
  }

  lemma AddKey(l: Tree, r: Tree, what: KeyKind, befores: seq<nat>, afters: seq<nat>, pairs: seq<Pair>,
               used: seq<NodeKey>, done: set<NodeKey>, key: NodeKey, p: Pair)
    requires PairsOfKeys(l, r, what, befores, afters, pairs, used, done) && key !in done
    requires UniquelyKeyed(l, r, what, befores, afters, p, key)
    ensures PairsOfKeys(l, r, what, befores, afters, pairs + [p], used + [key], done + {key})
  {
    hide Within;
    var more := pairs + [p];
    assert more[|pairs|] == p;
    forall q: Pair, other | other in done + {key} && UniquelyKeyed(l, r, what, befores, afters, q, other)
      ensures q in more
    {
      assert other == key ==> [q.0] == [p.0] && [q.1] == [p.1] && [q.0][0] == [p.0][0] && [q.1][0] == [p.1][0];
    }
  }

  lemma SkipKey(l: Tree, r: Tree, what: KeyKind, befores: seq<nat>, afters: seq<nat>, pairs: seq<Pair>,
                used: seq<NodeKey>, done: set<NodeKey>, key: NodeKey)
    requires PairsOfKeys(l, r, what, befores, afters, pairs, used, done)
    requires |WithKey(l, what, befores, key)| != 1 || |WithKey(r, what, afters, key)| != 1
    ensures PairsOfKeys(l, r, what, befores, afters, pairs, used, done + {key})
  {
    hide Within, WithKey;
  }

  lemma AllKeysDone(l: Tree, r: Tree, what: KeyKind, befores: seq<nat>, afters: seq<nat>, pairs: seq<Pair>,
                    used: seq<NodeKey>, buckets: map<NodeKey, seq<nat>>)
    requires PairsOfKeys(l, r, what, befores, afters, pairs, used, buckets.Keys) && Bucketed(l, what, befores, buckets)
    ensures forall p :: p in pairs <==> UniquePair(l, r, what, befores, afters, p)
    ensures OneToOne(pairs)
  {
    hide Within, WithKey;
    forall p: Pair | UniquePair(l, r, what, befores, afters, p) ensures p in pairs {
      var key :| UniquelyKeyed(l, r, what, befores, afters, p, key);
      assert key in buckets;
    }
    forall i, j | 0 <= i < j < |pairs| ensures pairs[i].0 != pairs[j].0 && pairs[i].1 != pairs[j].1 {
      KeysSeparate(l, r, what, befores, afters, pairs[i], pairs[j], used[i], used[j]);
    }
  }

  /** Keys are visited in no particular order. */
  method FindUniquePairs(l: Tree, r: Tree, what: KeyKind, befores: seq<nat>, afters: seq<nat>)
    returns (pairs: seq<Pair>)
    requires ValidIds(l, befores) && ValidIds(r, afters)
    ensures forall p :: p in pairs <==> UniquePair(l, r, what, befores, afters, p)
    ensures forall p :: p in pairs <==> UniquelyAlike(l, r, what, befores, afters, p)
    ensures OneToOne(pairs)
  {
    hide WellFormed, Distinct, Within, WithKey, PairsOfKeys, UniquePair, UniquelyAlike, OneToOne;
    forall p ensures UniquePair(l, r, what, befores, afters, p) <==> UniquelyAlike(l, r, what, befores, afters, p) {
      UniqueExactly(l, r, what, befores, afters, p);
    }
    var beforeBuckets := BuildBuckets(l, what, befores);
    var afterBuckets := BuildBuckets(r, what, afters);
    pairs := [];
    ghost var used: seq<NodeKey> := [];
    var keys := beforeBuckets.Keys;
    ghost var all := keys;
    assert all - keys == {};
    NoKeys(l, r, what, befores, afters);
    while keys != {}
      invariant keys <= all
      invariant PairsOfKeys(l, r, what, befores, afters, pairs, used, all - keys)
      decreases |keys|
    {
      var key :| key in keys;
      ghost var done := all - keys;
      OneKeyMore(all, keys, key);
      keys := keys - {key};
      if key in afterBuckets && |beforeBuckets[key]| == 1 && |afterBuckets[key]| == 1 {
        var pair := (beforeBuckets[key][0], afterBuckets[key][0]);
        assert beforeBuckets[key] == [pair.0] && afterBuckets[key] == [pair.1];
        AddKey(l, r, what, befores, afters, pairs, used, done, key, pair);
        pairs := pairs + [pair];
        used := used + [key];
      } else {
        SkipKey(l, r, what, befores, afters, pairs, used, done, key);
      }
    }
    assert all - keys == all;
    AllKeysDone(l, r, what, befores, afters, pairs, used, beforeBuckets);
  }

  lemma NoKeys(l: Tree, r: Tree, what: KeyKind, befores: seq<nat>, afters: seq<nat>)
    requires Within(l, befores) && Within(r, afters)
    ensures PairsOfKeys(l, r, what, befores, afters, [], [], {})
  {
  }
}
