/** Lists and multisets whose members have different keys. */
module Uniqueness {
  /** Every member occurs once, and no two members have the same key. */
  ghost predicate UniqueBy<T(!new), K(!new)>(key: T -> K, members: multiset<T>) {
    && (forall x :: x in members ==> members[x] == 1)
    && (forall x, y :: x in members && y in members && key(x) == key(y) ==> x == y)
  }

  lemma UniqueBySub<T(!new), K(!new)>(key: T -> K, members: multiset<T>, more: multiset<T>)
    requires UniqueBy(key, more) && members <= more
    ensures UniqueBy(key, members)
  {
  }

  lemma UniqueByAdd<T(!new), K(!new)>(key: T -> K, members: multiset<T>, x: T)
    ensures UniqueBy(key, members + multiset{x}) <==>
            UniqueBy(key, members) && forall y :: y in members ==> key(y) != key(x)
  {
    var more := members + multiset{x};
    if UniqueBy(key, more) {
      UniqueBySub(key, members, more);
      assert more[x] == 1;
    }
    if UniqueBy(key, members) && forall y :: y in members ==> key(y) != key(x) {
      assert x !in members;
      forall y | y in more ensures more[y] == 1 {
        assert y == x || y in members;
      }
    }
  }

  function Itself<T>(x: T): T { x }

  /** No two places of the list have the same key. */
  ghost predicate Apart<T, K(!new)>(key: T -> K, s: seq<T>) {
    forall i, j :: 0 <= i < j < |s| ==> key(s[i]) != key(s[j])
  }

  /** Whether keys differ does not depend on the order of the list. */
  lemma {:induction false} ApartIsUnique<T(!new), K(!new)>(key: T -> K, s: seq<T>)
    ensures Apart(key, s) <==> UniqueBy(key, multiset(s))
    decreases |s|
  {
    if s != [] {
      var init, last := s[..|s| - 1], s[|s| - 1];
      assert s == init + [last];
      ApartIsUnique(key, init);
      hide UniqueBy;
      UniqueByAdd(key, multiset(init), last);
      ApartSnoc(key, init, last);
    }
  }

  lemma ApartSnoc<T(!new), K(!new)>(key: T -> K, s: seq<T>, x: T)
    ensures Apart(key, s + [x]) <==> Apart(key, s) && forall y :: y in multiset(s) ==> key(y) != key(x)
  {
    var more := s + [x];
    assert more[|s|] == x;
    if Apart(key, more) {
      forall y | y in multiset(s) ensures key(y) != key(x) {
        var i :| 0 <= i < |s| && s[i] == y;
        assert more[i] == y;
      }
      forall i, j | 0 <= i < j < |s| ensures key(s[i]) != key(s[j]) {
        assert more[i] == s[i] && more[j] == s[j];
      }
    }
    if Apart(key, s) && forall y :: y in multiset(s) ==> key(y) != key(x) {
      forall i, j | 0 <= i < j < |more| ensures key(more[i]) != key(more[j]) {
        assert s[i] in multiset(s);
      }
    }
  }
}
