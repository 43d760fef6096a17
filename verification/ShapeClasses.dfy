/** Partitioning children into recursively verified shape classes. */
module ShapeClasses {
  import opened Wrappers
  import opened Finite
  import opened Syntax
  import opened Buckets
  import opened Serials
  import opened Claims

  datatype ShapeClass = ShapeClass(before: seq<nat>, after: seq<nat>)

  /** A pair the hash index proposes and the recursive comparison confirms. */
  ghost predicate SameShape(l: Tree, r: Tree, b: nat, a: nat)
    requires WellFormed(l) && WellFormed(r) && b < |l.nodes| && a < |r.nodes|
  {
    KeyOf(l, ByShape, b) == KeyOf(r, ByShape, a) && ShapeEqual(l, b, r, a)
  }

  /** Such a pair is one of equal kind, field, shape digest and serial up to kinds of one class. */
  lemma SameShapeExactly(l: Tree, r: Tree, b: nat, a: nat)
    requires WellFormed(l) && WellFormed(r) && b < |l.nodes| && a < |r.nodes|
    ensures SameShape(l, r, b, a) <==> OneShape(l, r, b, a)
  {
    hide WellFormed, ShapeEqual, SameSerial;
    KeyExactly(l, b, r, a, ByShape);
    ShapeExactly(l, b, r, a);
  }

  // ----- classes under one key

  /** The members of ids, in their order, that have the shape of the representative. */
  ghost function ShapedLike(l: Tree, rep: nat, t: Tree, ids: seq<nat>): (s: seq<nat>)
    requires WellFormed(l) && WellFormed(t) && rep < |l.nodes| && Within(t, ids)
    ensures forall id :: id in s <==> id in ids && id < |t.nodes| && ShapeEqual(l, rep, t, id)
  {
    if ids == [] then []
    else
      var last := ids[|ids| - 1];
      var rest := ShapedLike(l, rep, t, ids[..|ids| - 1]);
      assert ids == ids[..|ids| - 1] + [last];
      if ShapeEqual(l, rep, t, last) then rest + [last] else rest
  }

  lemma {:induction false} ShapedLikeDistinct(l: Tree, rep: nat, t: Tree, ids: seq<nat>)
    requires WellFormed(l) && rep < |l.nodes| && ValidIds(t, ids)
    ensures Distinct(ShapedLike(l, rep, t, ids))
    decreases |ids|
  {
    if ids != [] {
      var shorter := ids[..|ids| - 1];
      ShapedLikeDistinct(l, rep, t, shorter);
      assert ids[|ids| - 1] !in shorter;
    }
  }

  /** Every class holds exactly the ids shaped like its first member, no two first members have one shape, and
      every before id read so far has the shape of some class. */
  ghost predicate Classified(l: Tree, r: Tree, classes: seq<ShapeClass>, befores: seq<nat>, afters: seq<nat>) {
    && WellFormed(l) && WellFormed(r) && Within(l, befores) && Within(r, afters)
    && (forall k :: 0 <= k < |classes| ==> IsClass(l, r, classes[k], befores, afters))
    && (forall j, k :: 0 <= j < |classes| && 0 <= k < |classes| && j != k ==> Apart(l, classes[j], classes[k]))
    && (forall i :: 0 <= i < |befores| ==> HasClass(l, classes, befores[i]))
  }

  ghost predicate IsClass(l: Tree, r: Tree, c: ShapeClass, befores: seq<nat>, afters: seq<nat>)
    requires WellFormed(l) && WellFormed(r) && Within(l, befores) && Within(r, afters)
  {
    && c.before != [] && c.before[0] < |l.nodes|
    && c.before == ShapedLike(l, c.before[0], l, befores)
    && c.after == ShapedLike(l, c.before[0], r, afters)
  }

  ghost predicate Apart(l: Tree, c: ShapeClass, d: ShapeClass)
    requires WellFormed(l)
  {
    && c.before != [] && d.before != [] && c.before[0] < |l.nodes| && d.before[0] < |l.nodes|
    && !ShapeEqual(l, c.before[0], l, d.before[0])
  }

  ghost predicate HasClass(l: Tree, classes: seq<ShapeClass>, id: nat)
    requires WellFormed(l)
  {
    exists k :: 0 <= k < |classes| && FitsClass(l, classes[k], l, id)
  }

  ghost predicate FitsClass(l: Tree, c: ShapeClass, t: Tree, id: nat)
    requires WellFormed(l) && WellFormed(t)
  {
    c.before != [] && c.before[0] < |l.nodes| && id < |t.nodes| && ShapeEqual(l, c.before[0], t, id)
  }

  /** No id has the shape of two classes. */
  lemma OnlyOneClassFits(l: Tree, t: Tree, c: ShapeClass, d: ShapeClass, id: nat)
    requires WellFormed(l) && WellFormed(t) && Apart(l, c, d) && FitsClass(l, c, t, id)
    ensures !FitsClass(l, d, t, id)
  {
    if FitsClass(l, d, t, id) {
      ShapeSymmetric(l, d.before[0], t, id);
      ShapeTransitive(l, c.before[0], t, id, l, d.before[0]);
    }
  }

  /** The source scans for the first class whose representative the id equals. */
  method FindClass(l: Tree, t: Tree, classes: seq<ShapeClass>, id: nat) returns (found: Option<nat>)
    requires WellFormed(l) && WellFormed(t) && id < |t.nodes|
    requires forall k :: 0 <= k < |classes| ==> classes[k].before != [] && classes[k].before[0] < |l.nodes|
    ensures found.Some? ==> found.value < |classes| && FitsClass(l, classes[found.value], t, id)
    ensures found.None? ==> forall k :: 0 <= k < |classes| ==> !FitsClass(l, classes[k], t, id)
  {
    hide WellFormed, ShapeEqual;
    for k := 0 to |classes|
      invariant forall j :: 0 <= j < k ==> !FitsClass(l, classes[j], t, id)
    {
      if ShapeEqual(l, classes[k].before[0], t, id) {
        return Some(k);
      }
    }
    return None;
  }

  lemma HasClassKept(l: Tree, classes: seq<ShapeClass>, out: seq<ShapeClass>, id: nat)
    requires WellFormed(l) && HasClass(l, classes, id) && |classes| <= |out|
    requires forall k :: 0 <= k < |classes| && classes[k].before != [] ==>
                           out[k].before != [] && out[k].before[0] == classes[k].before[0]
    ensures HasClass(l, out, id)
  {
    hide WellFormed, ShapeEqual;
    var k :| 0 <= k < |classes| && FitsClass(l, classes[k], l, id);
    assert FitsClass(l, out[k], l, id);
  }

  lemma {:induction false} NothingShapedLike(l: Tree, rep: nat, t: Tree, ids: seq<nat>)
    requires WellFormed(l) && WellFormed(t) && rep < |l.nodes| && Within(t, ids)
    requires forall i :: 0 <= i < |ids| ==> !ShapeEqual(l, rep, t, ids[i])
    ensures ShapedLike(l, rep, t, ids) == []
    decreases |ids|
  {
    if ids != [] {
      NothingShapedLike(l, rep, t, ids[..|ids| - 1]);
    }
  }

  lemma BeforeJoins(l: Tree, r: Tree, classes: seq<ShapeClass>, befores: seq<nat>, id: nat, k: nat)
    requires Classified(l, r, classes, befores, []) && id < |l.nodes| && k < |classes| &&
             FitsClass(l, classes[k], l, id)
    ensures Classified(l, r, classes[k := ShapeClass(classes[k].before + [id], [])], befores + [id], [])
  {
    hide WellFormed, ShapeEqual, HasClass;
    var c := ShapeClass(classes[k].before + [id], []);
    var out := classes[k := c];
    assert (befores + [id])[..|befores|] == befores;
    assert c.before[0] == classes[k].before[0];
    forall j | 0 <= j < |out| ensures IsClass(l, r, out[j], befores + [id], []) {
      assert IsClass(l, r, classes[j], befores, []);
      if j != k {
        assert Apart(l, classes[k], classes[j]);
        OnlyOneClassFits(l, l, classes[k], classes[j], id);
      }
    }
    forall i, j | 0 <= i < |out| && 0 <= j < |out| && i != j ensures Apart(l, out[i], out[j]) {
      assert Apart(l, classes[i], classes[j]);
    }
    FitsHas(l, out, id, k);
    forall i | 0 <= i < |befores| ensures HasClass(l, out, befores[i]) {
      HasClassKept(l, classes, out, befores[i]);
    }
  }

  lemma FitsHas(l: Tree, classes: seq<ShapeClass>, id: nat, k: nat)
    requires WellFormed(l) && k < |classes| && FitsClass(l, classes[k], l, id)
    ensures HasClass(l, classes, id)
  {
  }

  lemma BeforeOpens(l: Tree, r: Tree, classes: seq<ShapeClass>, befores: seq<nat>, id: nat)
    requires Classified(l, r, classes, befores, []) && id < |l.nodes|
    requires forall k :: 0 <= k < |classes| ==> !FitsClass(l, classes[k], l, id)
    ensures Classified(l, r, classes + [ShapeClass([id], [])], befores + [id], [])
  {
    hide WellFormed, ShapeEqual, HasClass;
    var c := ShapeClass([id], []);
    var out := classes + [c];
    assert (befores + [id])[..|befores|] == befores;
    ShapeReflexive(l, id);
    forall i | 0 <= i < |befores| ensures !ShapeEqual(l, id, l, befores[i]) && HasClass(l, out, befores[i]) {
      NoClassNoMember(l, classes, befores[i], id);
      HasClassKept(l, classes, out, befores[i]);
    }
    NothingShapedLike(l, id, l, befores);
    FitsHas(l, out, id, |classes|);
    forall j | 0 <= j < |classes|
      ensures IsClass(l, r, classes[j], befores + [id], []) && Apart(l, classes[j], c) && Apart(l, c, classes[j])
    {
      assert IsClass(l, r, classes[j], befores, []) && !FitsClass(l, classes[j], l, id);
      if ShapeEqual(l, id, l, classes[j].before[0]) {
        ShapeSymmetric(l, id, l, classes[j].before[0]);
      }
    }
    forall i, j | 0 <= i < |out| && 0 <= j < |out| && i != j ensures Apart(l, out[i], out[j]) {
      if i < |classes| && j < |classes| {
        assert Apart(l, classes[i], classes[j]);
      }
    }
  }

  /** An id that fits no class has the shape of no id that fits one. */
  lemma NoClassNoMember(l: Tree, classes: seq<ShapeClass>, member: nat, id: nat)
    requires WellFormed(l) && member < |l.nodes| && id < |l.nodes| && HasClass(l, classes, member)
    requires forall k :: 0 <= k < |classes| ==> !FitsClass(l, classes[k], l, id)
    ensures !ShapeEqual(l, id, l, member)
  {
    hide WellFormed, ShapeEqual;
    var k :| 0 <= k < |classes| && FitsClass(l, classes[k], l, member);
    if ShapeEqual(l, id, l, member) {
      ShapeSymmetric(l, id, l, member);
      ShapeTransitive(l, classes[k].before[0], l, member, l, id);
    }
  }

  lemma ClassGains(l: Tree, r: Tree, c: ShapeClass, befores: seq<nat>, afters: seq<nat>, id: nat)
    requires WellFormed(l) && WellFormed(r) && Within(l, befores) && Within(r, afters)
    requires IsClass(l, r, c, befores, afters) && FitsClass(l, c, r, id)
    ensures Within(r, afters + [id])
    ensures IsClass(l, r, ShapeClass(c.before, c.after + [id]), befores, afters + [id])
  {
    hide WellFormed, ShapeEqual;
    assert (afters + [id])[..|afters|] == afters;
  }

  lemma ClassKeeps(l: Tree, r: Tree, c: ShapeClass, befores: seq<nat>, afters: seq<nat>, id: nat)
    requires WellFormed(l) && WellFormed(r) && Within(l, befores) && Within(r, afters) && id < |r.nodes|
    requires IsClass(l, r, c, befores, afters) && !FitsClass(l, c, r, id)
    ensures Within(r, afters + [id])
    ensures IsClass(l, r, c, befores, afters + [id])
  {
    hide WellFormed, ShapeEqual;
    assert (afters + [id])[..|afters|] == afters;
  }

  lemma AfterJoins(l: Tree, r: Tree, classes: seq<ShapeClass>, befores: seq<nat>, afters: seq<nat>, id: nat, k: nat)
    requires Classified(l, r, classes, befores, afters) && id < |r.nodes| && k < |classes|
    requires FitsClass(l, classes[k], r, id)
    ensures Classified(l, r, classes[k := ShapeClass(classes[k].before, classes[k].after + [id])], befores,
                       afters + [id])
  {
    hide WellFormed, ShapeEqual, HasClass, IsClass, ShapedLike, FitsClass;
    var out := classes[k := ShapeClass(classes[k].before, classes[k].after + [id])];
    assert Within(r, afters + [id]);
    forall j | 0 <= j < |out| ensures IsClass(l, r, out[j], befores, afters + [id]) {
      if j == k {
        ClassGains(l, r, classes[k], befores, afters, id);
      } else {
        assert Apart(l, classes[k], classes[j]);
        OnlyOneClassFits(l, r, classes[k], classes[j], id);
        ClassKeeps(l, r, classes[j], befores, afters, id);
      }
    }
    forall i, j | 0 <= i < |out| && 0 <= j < |out| && i != j ensures Apart(l, out[i], out[j]) {
      assert Apart(l, classes[i], classes[j]);
    }
    forall i | 0 <= i < |befores| ensures HasClass(l, out, befores[i]) {
      HasClassKept(l, classes, out, befores[i]);
    }
  }

  lemma AfterJoinsNone(l: Tree, r: Tree, classes: seq<ShapeClass>, befores: seq<nat>, afters: seq<nat>, id: nat)
    requires Classified(l, r, classes, befores, afters) && id < |r.nodes|
    requires forall k :: 0 <= k < |classes| ==> !FitsClass(l, classes[k], r, id)
    ensures Classified(l, r, classes, befores, afters + [id])
  {
    hide WellFormed, ShapeEqual, HasClass, IsClass, ShapedLike, FitsClass;
    forall j | 0 <= j < |classes| ensures IsClass(l, r, classes[j], befores, afters + [id]) {
      ClassKeeps(l, r, classes[j], befores, afters, id);
    }
  }

  method ClassesOfBucket(l: Tree, r: Tree, befores: seq<nat>, afters: seq<nat>) returns (classes: seq<ShapeClass>)
    requires ValidIds(l, befores) && ValidIds(r, afters)
    ensures Classified(l, r, classes, befores, afters)
  {
    hide ShapeEqual, IsClass, Apart, HasClass;
    classes := [];
    for n := 0 to |befores|
      invariant Classified(l, r, classes, befores[..n], [])
      invariant forall k :: 0 <= k < |classes| ==> classes[k].before != [] && classes[k].before[0] < |l.nodes|
    {
      assert befores[..n + 1] == befores[..n] + [befores[n]];
      var found := FindClass(l, l, classes, befores[n]);
      if found.Some? {
        var k := found.value;
        BeforeJoins(l, r, classes, befores[..n], befores[n], k);
        NoAfterYet(l, r, classes, befores[..n], k);
        classes := classes[k := ShapeClass(classes[k].before + [befores[n]], classes[k].after)];
      } else {
        BeforeOpens(l, r, classes, befores[..n], befores[n]);
        classes := classes + [ShapeClass([befores[n]], [])];
      }
    }
    assert befores[..|befores|] == befores;
    for n := 0 to |afters|
      invariant Classified(l, r, classes, befores, afters[..n])
      invariant forall k :: 0 <= k < |classes| ==> classes[k].before != [] && classes[k].before[0] < |l.nodes|
    {
      assert afters[..n + 1] == afters[..n] + [afters[n]];
      var found := FindClass(l, r, classes, afters[n]);
      if found.Some? {
        var k := found.value;
        AfterJoins(l, r, classes, befores, afters[..n], afters[n], k);
        classes := classes[k := ShapeClass(classes[k].before, classes[k].after + [afters[n]])];
      } else {
        AfterJoinsNone(l, r, classes, befores, afters[..n], afters[n]);
      }
    }
    assert afters[..|afters|] == afters;
  }

  lemma NoAfterYet(l: Tree, r: Tree, classes: seq<ShapeClass>, befores: seq<nat>, k: nat)
    requires Classified(l, r, classes, befores, []) && k < |classes|
    ensures classes[k].after == []
  {
    assert IsClass(l, r, classes[k], befores, []);
  }

  // ----- all keys together

  /** A verified class: both sides occupied, drawn from the given ids, and every pair of one shape. */
  ghost predicate Verified(l: Tree, r: Tree, c: ShapeClass, befores: seq<nat>, afters: seq<nat>)
    requires WellFormed(l) && WellFormed(r) && Within(l, befores) && Within(r, afters)
  {
    && c.before != [] && c.after != [] && Distinct(c.before) && Distinct(c.after)
    && (forall b :: b in c.before ==> b in befores) && (forall a :: a in c.after ==> a in afters)
    && (forall b, a :: b in c.before && a in c.after ==> SameShape(l, r, b, a))
  }

  ghost predicate Disjoint(c: ShapeClass, d: ShapeClass) {
    && (forall b :: b in c.before ==> b !in d.before)
    && (forall a :: a in c.after ==> a !in d.after)
  }

  ghost predicate AllDisjoint(classes: seq<ShapeClass>) {
    forall j, k :: 0 <= j < |classes| && 0 <= k < |classes| && j != k ==> Disjoint(classes[j], classes[k])
  }

  ghost predicate Together(classes: seq<ShapeClass>, b: nat, a: nat) {
    exists k :: 0 <= k < |classes| && b in classes[k].before && a in classes[k].after
  }

  /** The classes are disjoint, verified, and miss no pair of one shape whose key is among the given keys. */
  ghost predicate ClassesFor(l: Tree, r: Tree, classes: seq<ShapeClass>, befores: seq<nat>, afters: seq<nat>,
                             keys: set<NodeKey>)
  {
    && WellFormed(l) && WellFormed(r) && Within(l, befores) && Within(r, afters)
    && (forall k :: 0 <= k < |classes| ==>
                         Verified(l, r, classes[k], befores, afters) && KeyedBy(l, r, classes[k], keys))
    && AllDisjoint(classes)
    && (forall b, a :: b in befores && a in afters && KeyOf(l, ByShape, b) in keys && SameShape(l, r, b, a) ==>
                         Together(classes, b, a))
  }

  ghost predicate KeyedBy(l: Tree, r: Tree, c: ShapeClass, keys: set<NodeKey>) {
    && (forall b :: b in c.before ==> b < |l.nodes| && KeyOf(l, ByShape, b) in keys)
    && (forall a :: a in c.after ==> a < |r.nodes| && KeyOf(r, ByShape, a) in keys)
  }

  function NonEmptyAfter(classes: seq<ShapeClass>): (out: seq<ShapeClass>)
    ensures forall c :: c in out <==> c in classes && c.after != []
  {
    if classes == [] then []
    else
      var last := classes[|classes| - 1];
      var rest := NonEmptyAfter(classes[..|classes| - 1]);
      assert classes == classes[..|classes| - 1] + [last];
      if last.after != [] then rest + [last] else rest
  }

  lemma {:induction false} NonEmptyAfterDisjoint(classes: seq<ShapeClass>)
    requires AllDisjoint(classes)
    ensures AllDisjoint(NonEmptyAfter(classes))
  {
    if classes != [] {
      var shorter := classes[..|classes| - 1];
      forall j, k | 0 <= j < |shorter| && 0 <= k < |shorter| && j != k ensures Disjoint(shorter[j], shorter[k]) {
        assert Disjoint(classes[j], classes[k]);
      }
      NonEmptyAfterDisjoint(shorter);
      var rest := NonEmptyAfter(shorter);
      var last := classes[|classes| - 1];
      forall j | 0 <= j < |rest| ensures Disjoint(rest[j], last) && Disjoint(last, rest[j]) {
        assert rest[j] in shorter;
        var i :| 0 <= i < |shorter| && shorter[i] == rest[j];
        assert Disjoint(classes[i], classes[|classes| - 1]) && Disjoint(classes[|classes| - 1], classes[i]);
      }
      var out := NonEmptyAfter(classes);
      forall j, k | 0 <= j < |out| && 0 <= k < |out| && j != k ensures Disjoint(out[j], out[k]) {
        if j < |rest| && k < |rest| {
          assert Disjoint(rest[j], rest[k]);
        }
      }
    }
  }

  /** The classes of one bucket are disjoint, verified and complete for its key. */
  lemma BucketClasses(l: Tree, r: Tree, befores: seq<nat>, afters: seq<nat>, key: NodeKey, classes: seq<ShapeClass>)
    requires ValidIds(l, befores) && ValidIds(r, afters)
    requires Classified(l, r, classes, WithKey(l, ByShape, befores, key), WithKey(r, ByShape, afters, key))
    ensures ClassesFor(l, r, NonEmptyAfter(classes), befores, afters, {key})
  {
    hide WellFormed, ShapeEqual, Disjoint, Verified, KeyedBy, Together, IsClass, Apart, HasClass;
    var bs, as_ := WithKey(l, ByShape, befores, key), WithKey(r, ByShape, afters, key);
    forall j, k | 0 <= j < |classes| && 0 <= k < |classes| && j != k ensures Disjoint(classes[j], classes[k]) {
      BucketDisjoint(l, r, classes, bs, as_, j, k);
    }
    NonEmptyAfterDisjoint(classes);
    var out := NonEmptyAfter(classes);
    forall k | 0 <= k < |out| ensures Verified(l, r, out[k], befores, afters) && KeyedBy(l, r, out[k], {key}) {
      assert out[k] in classes;
      BucketVerified(l, r, befores, afters, key, out[k]);
    }
    forall b, a | b in befores && a in afters && KeyOf(l, ByShape, b) in {key} && SameShape(l, r, b, a)
      ensures Together(out, b, a)
    {
      BucketComplete(l, r, befores, afters, key, classes, b, a);
    }
  }

  lemma BucketDisjoint(l: Tree, r: Tree, classes: seq<ShapeClass>, bs: seq<nat>, as_: seq<nat>, j: nat, k: nat)
    requires Classified(l, r, classes, bs, as_) && j < |classes| && k < |classes| && j != k
    ensures Disjoint(classes[j], classes[k])
  {
    hide WellFormed, ShapeEqual;
    var c, d := classes[j], classes[k];
    assert IsClass(l, r, c, bs, as_) && IsClass(l, r, d, bs, as_) && Apart(l, c, d);
    forall b | b in c.before ensures b !in d.before {
      OnlyOneClassFits(l, l, c, d, b);
    }
    forall a | a in c.after ensures a !in d.after {
      OnlyOneClassFits(l, r, c, d, a);
    }
  }

  lemma BucketVerified(l: Tree, r: Tree, befores: seq<nat>, afters: seq<nat>, key: NodeKey, c: ShapeClass)
    requires ValidIds(l, befores) && ValidIds(r, afters) && c.after != []
    requires IsClass(l, r, c, WithKey(l, ByShape, befores, key), WithKey(r, ByShape, afters, key))
    ensures Verified(l, r, c, befores, afters) && KeyedBy(l, r, c, {key})
  {
    hide WellFormed, ShapeEqual;
    WithKeyDistinct(l, ByShape, befores, key);
    WithKeyDistinct(r, ByShape, afters, key);
    ShapedLikeDistinct(l, c.before[0], l, WithKey(l, ByShape, befores, key));
    ShapedLikeDistinct(l, c.before[0], r, WithKey(r, ByShape, afters, key));
    forall b, a | b in c.before && a in c.after ensures SameShape(l, r, b, a) {
      ShapeSymmetric(l, c.before[0], l, b);
      ShapeTransitive(l, b, l, c.before[0], r, a);
    }
  }

  lemma BucketComplete(l: Tree, r: Tree, befores: seq<nat>, afters: seq<nat>, key: NodeKey, classes: seq<ShapeClass>,
                       b: nat, a: nat)
    requires ValidIds(l, befores) && ValidIds(r, afters)
    requires Classified(l, r, classes, WithKey(l, ByShape, befores, key), WithKey(r, ByShape, afters, key))
    requires b in befores && a in afters && KeyOf(l, ByShape, b) == key && SameShape(l, r, b, a)
    ensures Together(NonEmptyAfter(classes), b, a)
  {
    hide WellFormed, ShapeEqual, Apart;
    var bs, as_ := WithKey(l, ByShape, befores, key), WithKey(r, ByShape, afters, key);
    var i :| 0 <= i < |bs| && bs[i] == b;
    assert HasClass(l, classes, bs[i]);
    var k :| 0 <= k < |classes| && FitsClass(l, classes[k], l, b);
    FittingClassHolds(l, r, classes[k], bs, as_, b, a);
    assert classes[k] in NonEmptyAfter(classes);
  }

  lemma FittingClassHolds(l: Tree, r: Tree, c: ShapeClass, bs: seq<nat>, as_: seq<nat>, b: nat, a: nat)
    requires WellFormed(l) && WellFormed(r) && Within(l, bs) && Within(r, as_)
    requires IsClass(l, r, c, bs, as_) && FitsClass(l, c, l, b) && b in bs && a in as_
    requires a < |r.nodes| && ShapeEqual(l, b, r, a)
    ensures b in c.before && a in c.after
  {
    hide WellFormed, ShapeEqual;
    ShapeTransitive(l, c.before[0], l, b, r, a);
  }

  /** Classes for disjoint sets of keys put side by side. */
  lemma JoinClasses(l: Tree, r: Tree, cs: seq<ShapeClass>, ds: seq<ShapeClass>, befores: seq<nat>, afters: seq<nat>,
                    keys: set<NodeKey>, key: NodeKey)
    requires ClassesFor(l, r, cs, befores, afters, keys) && ClassesFor(l, r, ds, befores, afters, {key})
    requires key !in keys
    ensures ClassesFor(l, r, cs + ds, befores, afters, keys + {key})
  {
    hide WellFormed, ShapeEqual, Verified;
    var out := cs + ds;
    forall k | 0 <= k < |out| ensures Verified(l, r, out[k], befores, afters) && KeyedBy(l, r, out[k], keys + {key}) {
      if k < |cs| {
        assert KeyedBy(l, r, cs[k], keys);
      } else {
        assert KeyedBy(l, r, ds[k - |cs|], {key});
      }
    }
    forall j, k | 0 <= j < |out| && 0 <= k < |out| && j != k ensures Disjoint(out[j], out[k]) {
      if j < |cs| && k < |cs| {
        assert Disjoint(cs[j], cs[k]);
      } else if j >= |cs| && k >= |cs| {
        assert Disjoint(ds[j - |cs|], ds[k - |cs|]);
      } else if j < |cs| {
        assert KeyedBy(l, r, cs[j], keys) && KeyedBy(l, r, ds[k - |cs|], {key});
      } else {
        assert KeyedBy(l, r, cs[k], keys) && KeyedBy(l, r, ds[j - |cs|], {key});
      }
    }
    forall b, a | b in befores && a in afters && KeyOf(l, ByShape, b) in keys + {key} && SameShape(l, r, b, a)
      ensures Together(out, b, a)
    {
      if KeyOf(l, ByShape, b) in keys {
        var k :| 0 <= k < |cs| && b in cs[k].before && a in cs[k].after;
        assert out[k] == cs[k];
      } else {
        var k :| 0 <= k < |ds| && b in ds[k].before && a in ds[k].after;
        assert out[|cs| + k] == ds[k];
      }
    }
  }

  /** Keys are visited in no particular order: the result does not depend on it. */
  method VerifiedShapeClasses(l: Tree, r: Tree, befores: seq<nat>, afters: seq<nat>) returns (classes: seq<ShapeClass>)
    requires ValidIds(l, befores) && ValidIds(r, afters)
    ensures AllClasses(l, r, classes, befores, afters)
    ensures forall k, b, a :: 0 <= k < |classes| && b in classes[k].before && a in classes[k].after ==>
              OneShape(l, r, b, a)
    ensures forall b, a :: b in befores && a in afters && OneShape(l, r, b, a) ==>
              exists k :: 0 <= k < |classes| && b in classes[k].before && a in classes[k].after
  {
    hide WellFormed, ShapeEqual, ClassesFor, AllClasses, Classified, SameShape, Distinct, Within, NonEmptyAfter, KeyOf;
    hide OneShape;
    var beforeBuckets := BuildBuckets(l, ByShape, befores);
    var afterBuckets := BuildBuckets(r, ByShape, afters);
    classes := [];
    NoClasses(l, r, befores, afters);
    var keys := beforeBuckets.Keys;
    ghost var all := keys;
    assert all - keys == {};
    while keys != {}
      invariant keys <= all
      invariant ClassesFor(l, r, classes, befores, afters, all - keys)
      decreases |keys|
    {
      var key :| key in keys;
      ghost var done := all - keys;
      OneKeyMore(all, keys, key);
      keys := keys - {key};
      WithKeyDistinct(l, ByShape, befores, key);
      WithKeyDistinct(r, ByShape, afters, key);
      if key in afterBuckets {
        var keyClasses := ClassesOfBucket(l, r, beforeBuckets[key], afterBuckets[key]);
        BucketClasses(l, r, befores, afters, key, keyClasses);
        JoinClasses(l, r, classes, NonEmptyAfter(keyClasses), befores, afters, done, key);
        classes := classes + NonEmptyAfter(keyClasses);
      } else {
        NoAfterWithKey(l, r, befores, afters, key);
        JoinClasses(l, r, classes, [], befores, afters, done, key);
        assert classes + [] == classes;
      }
    }
    assert all - keys == all;
    EveryKeyDone(l, r, classes, befores, afters, beforeBuckets);
    ClassesOfOneShape(l, r, classes, befores, afters);
  }

  lemma ClassesOfOneShape(l: Tree, r: Tree, classes: seq<ShapeClass>, befores: seq<nat>, afters: seq<nat>)
    requires AllClasses(l, r, classes, befores, afters)
    ensures forall k, b, a :: 0 <= k < |classes| && b in classes[k].before && a in classes[k].after ==>
              OneShape(l, r, b, a)
    ensures forall b, a :: b in befores && a in afters && OneShape(l, r, b, a) ==>
              exists k :: 0 <= k < |classes| && b in classes[k].before && a in classes[k].after
  {
    hide WellFormed, SameShape, OneShape, AllDisjoint;
    forall b: nat, a: nat | b < |l.nodes| && a < |r.nodes| ensures SameShape(l, r, b, a) <==> OneShape(l, r, b, a) {
      SameShapeExactly(l, r, b, a);
    }
    forall k, b, a | 0 <= k < |classes| && b in classes[k].before && a in classes[k].after
      ensures OneShape(l, r, b, a)
    {
      assert Verified(l, r, classes[k], befores, afters);
      assert b in befores && a in afters;
    }
    forall b, a | b in befores && a in afters && OneShape(l, r, b, a)
      ensures exists k :: 0 <= k < |classes| && b in classes[k].before && a in classes[k].after
    {
      assert Together(classes, b, a);
    }
  }

  /** The verified classes are disjoint and put every pair of one shape together. */
  ghost predicate AllClasses(l: Tree, r: Tree, classes: seq<ShapeClass>, befores: seq<nat>, afters: seq<nat>) {
    && WellFormed(l) && WellFormed(r) && Within(l, befores) && Within(r, afters)
    && (forall k :: 0 <= k < |classes| ==> Verified(l, r, classes[k], befores, afters))
    && AllDisjoint(classes)
    && (forall b, a :: b in befores && a in afters && SameShape(l, r, b, a) ==> Together(classes, b, a))
  }

  lemma NoClasses(l: Tree, r: Tree, befores: seq<nat>, afters: seq<nat>)
    requires ValidIds(l, befores) && ValidIds(r, afters)
    ensures ClassesFor(l, r, [], befores, afters, {})
  {
  }

  lemma NoAfterWithKey(l: Tree, r: Tree, befores: seq<nat>, afters: seq<nat>, key: NodeKey)
    requires ValidIds(l, befores) && ValidIds(r, afters) && WithKey(r, ByShape, afters, key) == []
    ensures ClassesFor(l, r, [], befores, afters, {key})
  {
    hide WellFormed, ShapeEqual;
    forall b, a | b in befores && a in afters && KeyOf(l, ByShape, b) in {key} ensures !SameShape(l, r, b, a) {
      assert a !in WithKey(r, ByShape, afters, key);
    }
  }

  lemma EveryKeyDone(l: Tree, r: Tree, classes: seq<ShapeClass>, befores: seq<nat>, afters: seq<nat>,
                     buckets: map<NodeKey, seq<nat>>)
    requires ValidIds(l, befores) && ValidIds(r, afters) && Bucketed(l, ByShape, befores, buckets)
    requires ClassesFor(l, r, classes, befores, afters, buckets.Keys)
    ensures AllClasses(l, r, classes, befores, afters)
  {
    hide WellFormed, ShapeEqual;
    forall b | b in befores ensures KeyOf(l, ByShape, b) in buckets.Keys {
      assert b in WithKey(l, ByShape, befores, KeyOf(l, ByShape, b));
    }
  }
}
