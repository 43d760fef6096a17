/** Stable sorting by a total preorder, and the fact that a sorted list is determined by its members. */
module Sorting {
  import opened Uniqueness

  ghost predicate TotalPreorder<T(!new)>(le: (T, T) -> bool) {
    && (forall x, y :: le(x, y) || le(y, x))
    && (forall x, y, z :: le(x, y) && le(y, z) ==> le(x, z))
  }

  ghost predicate Sorted<T>(le: (T, T) -> bool, s: seq<T>) {
    forall i, j :: 0 <= i < j < |s| ==> le(s[i], s[j])
  }

  function Insert<T>(le: (T, T) -> bool, s: seq<T>, x: T): (r: seq<T>)
    ensures multiset(r) == multiset(s) + multiset{x} && |r| == |s| + 1
  {
    if s == [] then [x]
    else if le(s[|s| - 1], x) then s + [x]
    else
      var last := s[|s| - 1];
      var init := s[..|s| - 1];
      assert s == init + [last];
      Insert(le, init, x) + [last]
  }

  /** Insertion from the left, each element after those it does not precede: a stable sort. */
  function Sort<T>(le: (T, T) -> bool, s: seq<T>): (r: seq<T>)
    ensures multiset(r) == multiset(s) && |r| == |s|
  {
    if s == [] then []
    else
      assert s == s[..|s| - 1] + [s[|s| - 1]];
      Insert(le, Sort(le, s[..|s| - 1]), s[|s| - 1])
  }

  lemma {:induction false} InsertSorted<T(!new)>(le: (T, T) -> bool, s: seq<T>, x: T)
    requires TotalPreorder(le) && Sorted(le, s)
    ensures Sorted(le, Insert(le, s, x))
    decreases |s|
  {
    if s != [] && !le(s[|s| - 1], x) {
      var last := s[|s| - 1];
      var init := s[..|s| - 1];
      InsertSorted(le, init, x);
      var r := Insert(le, init, x);
      forall i | 0 <= i < |r| ensures le(r[i], last) {
        assert r[i] in multiset(r);
        assert r[i] == x || r[i] in multiset(init);
        if r[i] != x {
          var j :| 0 <= j < |init| && init[j] == r[i];
          assert le(s[j], s[|s| - 1]);
        }
      }
    } else if s != [] {
      forall i | 0 <= i < |s| ensures le(s[i], x) {
        if i < |s| - 1 {
          assert le(s[i], s[|s| - 1]);
        }
      }
    }
  }

  lemma {:induction false} SortSorted<T(!new)>(le: (T, T) -> bool, s: seq<T>)
    requires TotalPreorder(le)
    ensures Sorted(le, Sort(le, s))
    decreases |s|
  {
    if s != [] {
      SortSorted(le, s[..|s| - 1]);
      InsertSorted(le, Sort(le, s[..|s| - 1]), s[|s| - 1]);
    }
  }

  /** No two members share a key. */
  ghost predicate KeysDiffer<T>(le: (T, T) -> bool, s: multiset<T>) {
    forall x, y :: x in s && y in s && le(x, y) && le(y, x) ==> x == y
  }

  /** A sorted list whose members have different keys is determined by which members it has. */
  lemma {:induction false} SortedUnique<T(!new)>(le: (T, T) -> bool, s: seq<T>, t: seq<T>)
    requires TotalPreorder(le) && Sorted(le, s) && Sorted(le, t)
    requires multiset(s) == multiset(t) && KeysDiffer(le, multiset(s))
    ensures s == t
    decreases |s|
  {
    assert |s| == |multiset(s)| == |multiset(t)| == |t|;
    if s != [] {
      var n := |s| - 1;
      SplitLast(s);
      SplitLast(t);
      LastIsLargest(le, s, t[n]);
      LastIsLargest(le, t, s[n]);
      assert s[n] == t[n];
      forall x | x in multiset(s[..n]) ensures x in multiset(s) {
      }
      SortedUnique(le, s[..n], t[..n]);
    }
  }

  lemma SplitLast<T>(s: seq<T>)
    requires s != []
    ensures s == s[..|s| - 1] + [s[|s| - 1]]
    ensures multiset(s) == multiset(s[..|s| - 1]) + multiset{s[|s| - 1]}
    ensures multiset(s[..|s| - 1]) == multiset(s) - multiset{s[|s| - 1]}
  {
    assert s == s[..|s| - 1] + [s[|s| - 1]];
  }

  lemma LastIsLargest<T(!new)>(le: (T, T) -> bool, s: seq<T>, x: T)
    requires TotalPreorder(le) && Sorted(le, s) && x in multiset(s)
    ensures le(x, s[|s| - 1])
  {
    assert x in s;
    var i :| 0 <= i < |s| && s[i] == x;
    if i < |s| - 1 {
      assert le(s[i], s[|s| - 1]);
    } else {
      assert le(x, x);
    }
  }

  /** Sorting forgets the order in which the members arrived. */
  lemma SortCanonical<T(!new)>(le: (T, T) -> bool, s: seq<T>, t: seq<T>)
    requires TotalPreorder(le) && multiset(s) == multiset(t) && KeysDiffer(le, multiset(s))
    ensures Sort(le, s) == Sort(le, t)
  {
    SortSorted(le, s);
    SortSorted(le, t);
    SortedUnique(le, Sort(le, s), Sort(le, t));
  }

  /** Sorting keeps the members and keeps different keys different. */
  lemma SortMembers<T(!new), K(!new)>(le: (T, T) -> bool, key: T -> K, s: seq<T>)
    ensures forall x :: x in Sort(le, s) <==> x in s
    ensures Apart(key, s) ==> Apart(key, Sort(le, s))
  {
    var t := Sort(le, s);
    forall x ensures x in t <==> x in s {
      assert x in t <==> x in multiset(t);
    }
    ApartIsUnique(key, s);
    ApartIsUnique(key, t);
  }
}
