/** Sizes of finite sets and of lists without repetition. */
module Finite {
  lemma {:induction false} SubsetSize<T>(a: set<T>, b: set<T>)
    requires a <= b
    ensures |a| <= |b|
    ensures |a| == |b| ==> a == b
  {
    assert b == a + (b - a);
    assert |b| == |a| + |b - a|;
  }

  lemma {:induction false} ListSize<T>(s: seq<T>)
    requires forall i, j :: 0 <= i < j < |s| ==> s[i] != s[j]
    ensures |set x | x in s| == |s|
    decreases |s|
  {
    if s != [] {
      var init, last := s[..|s| - 1], s[|s| - 1];
      ListSize(init);
      assert s == init + [last];
      assert (set x | x in s) == (set x | x in init) + {last};
      assert last !in init;
    }
  }

  /** Taking one more key off those still to do. */
  lemma OneKeyMore<T>(all: set<T>, keys: set<T>, key: T)
    requires key in keys && keys <= all
    ensures all - (keys - {key}) == (all - keys) + {key} && key !in all - keys
  {
  }

  /** A list without repetition that draws on another is no longer than it. */
  lemma SubListSize<T>(part: seq<T>, whole: seq<T>)
    requires forall i, j :: 0 <= i < j < |part| ==> part[i] != part[j]
    requires forall i, j :: 0 <= i < j < |whole| ==> whole[i] != whole[j]
    requires forall x :: x in part ==> x in whole
    ensures |part| <= |whole|
  {
    ListSize(part);
    ListSize(whole);
    SubsetSize(set x | x in part, set x | x in whole);
  }
}
