/** Strings as sorted and compared by the program: lexicographic order and ASCII case. */
module Strings {
  /** Lexicographic order, a proper prefix first. */
  predicate StringLe(s: string, t: string) {
    s == [] || (t != [] && (s[0] < t[0] || (s[0] == t[0] && StringLe(s[1..], t[1..]))))
  }

  /** The first place where the strings differ decides; a proper prefix comes first. */
  ghost predicate Precedes(s: string, t: string) {
    || s < t
    || exists k :: 0 <= k < |s| && k < |t| && s[..k] == t[..k] && s[k] < t[k]
  }

  lemma {:induction false} StringLeExactly(s: string, t: string)
    ensures StringLe(s, t) <==> s == t || Precedes(s, t)
    decreases |s|
  {
    if s != [] && t != [] && s[0] == t[0] {
      StringLeExactly(s[1..], t[1..]);
      assert s == [s[0]] + s[1..] && t == [t[0]] + t[1..];
      PrecedesTail(s, t);
    } else if s != [] && t != [] && s[0] < t[0] {
      assert s[..0] == t[..0];
    }
  }

  lemma PrecedesTail(s: string, t: string)
    requires s != [] && t != [] && s[0] == t[0]
    ensures Precedes(s, t) <==> Precedes(s[1..], t[1..])
  {
    var a, b := s[1..], t[1..];
    assert s == [s[0]] + a && t == [t[0]] + b;
    if Precedes(s, t) && !(s < t) {
      var k :| 0 <= k < |s| && k < |t| && s[..k] == t[..k] && s[k] < t[k];
      assert a[..k - 1] == s[..k][1..] == t[..k][1..] == b[..k - 1];
      assert a[k - 1] < b[k - 1];
    }
    if Precedes(a, b) && !(a < b) {
      var k :| 0 <= k < |a| && k < |b| && a[..k] == b[..k] && a[k] < b[k];
      assert s[..k + 1] == [s[0]] + a[..k] == [t[0]] + b[..k] == t[..k + 1];
      assert s[k + 1] < t[k + 1];
    }
  }

  lemma {:induction false} StringLeTotal(s: string, t: string)
    ensures StringLe(s, t) || StringLe(t, s)
    decreases |s|
  {
    if s != [] && t != [] && s[0] == t[0] {
      StringLeTotal(s[1..], t[1..]);
    }
  }

  lemma {:induction false} StringLeTransitive(s: string, t: string, u: string)
    requires StringLe(s, t) && StringLe(t, u)
    ensures StringLe(s, u)
    decreases |s|
  {
    if s != [] && s[0] == t[0] == u[0] {
      StringLeTransitive(s[1..], t[1..], u[1..]);
    }
  }

  lemma {:induction false} StringLeAntisymmetric(s: string, t: string)
    requires StringLe(s, t) && StringLe(t, s)
    ensures s == t
    decreases |s|
  {
    if s != [] {
      StringLeAntisymmetric(s[1..], t[1..]);
      assert s == [s[0]] + s[1..] && t == [t[0]] + t[1..];
    }
  }

  lemma PrecedesOneWay(s: string, t: string)
    ensures !(Precedes(s, t) && Precedes(t, s)) && !Precedes(s, s)
  {
    if Precedes(s, t) && Precedes(t, s) {
      StringLeExactly(s, t);
      StringLeExactly(t, s);
      StringLeAntisymmetric(s, t);
    }
  }

  function LowerChar(c: char): char {
    if 'A' <= c <= 'Z' then c - 'A' + 'a' else c
  }

  function LowerAscii(s: string): string {
    seq(|s|, i requires 0 <= i < |s| => LowerChar(s[i]))
  }
  /** The same letter, in upper or lower case; outside A to Z and a to z only the same character. */
  ghost predicate SameLetter(c: char, d: char) {
    || c == d
    || ('A' <= c <= 'Z' && d as int == c as int + 32)
    || ('A' <= d <= 'Z' && c as int == d as int + 32)
  }

  ghost predicate SpelledLike(s: string, t: string) {
    |s| == |t| && forall k :: 0 <= k < |s| ==> SameLetter(s[k], t[k])
  }

  lemma LowerAsciiExactly(s: string, t: string)
    ensures LowerAscii(s) == LowerAscii(t) <==> SpelledLike(s, t)
  {
    if LowerAscii(s) == LowerAscii(t) {
      forall k | 0 <= k < |s| ensures SameLetter(s[k], t[k]) {
        assert LowerAscii(s)[k] == LowerAscii(t)[k];
      }
    }
  }

  lemma LowerAlready(s: string)
    requires forall k :: 0 <= k < |s| ==> !('A' <= s[k] <= 'Z')
    ensures LowerAscii(s) == s
  {
  }
}
