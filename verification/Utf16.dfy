/** The index of UTF-16 boundaries of a source, and the resolver's index of comparable nodes. */
module Utf16 {
  import opened Wrappers

  const NON_BOUNDARY: nat := 0xFFFF_FFFF_FFFF_FFFF

  // ----- lengths of a scalar value: section 2.1 of RFC 2781 and section 3 of RFC 3629

  function Utf16Length(c: char): nat {
    if c as int >= 0x1_0000 then 2 else 1
  }

  function Utf8Length(c: char): nat {
    if c as int < 0x80 then 1 else if c as int < 0x800 then 2 else if c as int < 0x1_0000 then 3 else 4
  }

  /** The scalar that code units stand for: themselves, or a high and a low surrogate with ten bits each. */
  ghost predicate StandFor(units: seq<nat>, c: char) {
    || (|units| == 1 && units[0] == c as int)
    || (|units| == 2 && 0xD800 <= units[0] < 0xDC00 && 0xDC00 <= units[1] < 0xE000 &&
        c as int == 0x1_0000 + (units[0] - 0xD800) * 0x400 + (units[1] - 0xDC00))
  }

  ghost predicate EncodedUtf16(units: seq<nat>, c: char) {
    StandFor(units, c) && forall k :: 0 <= k < |units| ==> units[k] < 0x1_0000
  }

  ghost predicate Continues(octets: seq<nat>) {
    forall k :: 0 < k < |octets| ==> 0x80 <= octets[k] < 0xC0
  }

  /** The shortest form: a lead octet that tells the length, then six bits an octet. */
  ghost predicate EncodedUtf8(octets: seq<nat>, c: char) {
    && Continues(octets)
    && match |octets|
       case 1 => octets[0] < 0x80 && c as int == octets[0]
       case 2 => 0xC0 <= octets[0] < 0xE0 && c as int >= 0x80 &&
                 c as int == (octets[0] - 0xC0) * 0x40 + (octets[1] - 0x80)
       case 3 => 0xE0 <= octets[0] < 0xF0 && c as int >= 0x800 &&
                 c as int == (octets[0] - 0xE0) * 0x1000 + (octets[1] - 0x80) * 0x40 + (octets[2] - 0x80)
       case 4 => 0xF0 <= octets[0] < 0xF8 && c as int >= 0x1_0000 &&
                 c as int == (octets[0] - 0xF0) * 0x4_0000 + (octets[1] - 0x80) * 0x1000 +
                             (octets[2] - 0x80) * 0x40 + (octets[3] - 0x80)
       case _ => false
  }

  /** Every scalar has an encoding of the computed length in code units, and none of another length. */
  lemma Utf16LengthExact(c: char)
    ensures exists units :: EncodedUtf16(units, c) && |units| == Utf16Length(c)
    ensures forall units :: EncodedUtf16(units, c) ==> |units| == Utf16Length(c)
  {
    var n := c as int;
    if n < 0x1_0000 {
      assert EncodedUtf16([n], c);
    } else {
      assert EncodedUtf16([0xD800 + (n - 0x1_0000) / 0x400, 0xDC00 + (n - 0x1_0000) % 0x400], c);
    }
  }

  /** The same in octets. */
  lemma Utf8LengthExact(c: char)
    ensures exists octets :: EncodedUtf8(octets, c) && |octets| == Utf8Length(c)
    ensures forall octets :: EncodedUtf8(octets, c) ==> |octets| == Utf8Length(c)
  {
    var octets := EncodingUtf8(c);
    forall other | EncodedUtf8(other, c) ensures |other| == Utf8Length(c) {
      OneUtf8Length(other, c);
    }
  }

  lemma EncodingUtf8(c: char) returns (octets: seq<nat>)
    ensures EncodedUtf8(octets, c) && |octets| == Utf8Length(c)
  {
    var n := c as int;
    var upper := n / 0x40;
    var highest := upper / 0x40;
    octets :=
      if n < 0x80 then [n]
      else if n < 0x800 then [0xC0 + upper, 0x80 + n % 0x40]
      else if n < 0x1_0000 then [0xE0 + highest, 0x80 + upper % 0x40, 0x80 + n % 0x40]
      else [0xF0 + highest / 0x40, 0x80 + highest % 0x40, 0x80 + upper % 0x40, 0x80 + n % 0x40];
  }

  lemma OneUtf8Length(octets: seq<nat>, c: char)
    requires EncodedUtf8(octets, c)
    ensures |octets| == Utf8Length(c)
  {
    assert forall k :: 0 < k < |octets| ==> 0x80 <= octets[k] < 0xC0;
  }

  function Units(s: string): nat {
    if s == [] then 0 else Units(s[..|s| - 1]) + Utf16Length(s[|s| - 1])
  }

  function Bytes(s: string): nat {
    if s == [] then 0 else Bytes(s[..|s| - 1]) + Utf8Length(s[|s| - 1])
  }

  lemma OneMore(s: string, k: nat)
    requires k < |s|
    ensures Units(s[..k + 1]) == Units(s[..k]) + Utf16Length(s[k])
    ensures Bytes(s[..k + 1]) == Bytes(s[..k]) + Utf8Length(s[k])
  {
    assert s[..k + 1][..k] == s[..k];
  }

  lemma {:induction false} LengthsIncrease(s: string, j: nat, k: nat)
    requires j < k <= |s|
    ensures Units(s[..j]) + Utf16Length(s[j]) <= Units(s[..k]) && Bytes(s[..j]) < Bytes(s[..k])
    decreases k
  {
    hide Utf16Length, Utf8Length;
    OneMore(s, k - 1);
    AtLeastOne(s[k - 1]);
    if j < k - 1 {
      LengthsIncrease(s, j, k - 1);
    }
  }

  lemma AtLeastOne(c: char)
    ensures Utf16Length(c) >= 1 && Utf8Length(c) >= 1
  {
  }

  // ----- the boundary map

  /** The prefix of k scalars is n code units long. */
  ghost predicate BoundaryAt(source: string, n: nat, k: nat) {
    k <= |source| && Units(source[..k]) == n
  }

  ghost predicate IsBoundary(source: string, n: nat) {
    exists k: nat :: BoundaryAt(source, n, k)
  }

  /** The table for the first k scalars: a byte length at every boundary, the marker inside surrogate pairs. */
  ghost predicate Maps(source: string, k: nat, offsets: seq<nat>) {
    && k <= |source| && |offsets| == Units(source[..k]) + 1
    && (forall j: nat :: j <= k ==> Units(source[..j]) < |offsets| && offsets[Units(source[..j])] == Bytes(source[..j]))
    && (forall n :: 0 <= n < |offsets| && offsets[n] != NON_BOUNDARY ==>
                      exists j: nat :: j <= k && BoundaryAt(source, n, j))
  }

  lemma MapExtended(source: string, k: nat, offsets: seq<nat>)
    requires Maps(source, k, offsets) && k < |source|
    ensures Maps(source, k + 1,
                 offsets + (if Utf16Length(source[k]) == 2 then [NON_BOUNDARY] else []) +
                 [Bytes(source[..k]) + Utf8Length(source[k])])
  {
    OneMore(source, k);
    hide Utf8Length, Bytes, Units;
    var more := offsets + (if Utf16Length(source[k]) == 2 then [NON_BOUNDARY] else []) +
                [Bytes(source[..k]) + Utf8Length(source[k])];
    forall j: nat | j <= k + 1
      ensures Units(source[..j]) < |more| && more[Units(source[..j])] == Bytes(source[..j])
    {
    }
    forall n | 0 <= n < |more| && more[n] != NON_BOUNDARY
      ensures exists j: nat :: j <= k + 1 && BoundaryAt(source, n, j)
    {
      if n == |more| - 1 {
        assert BoundaryAt(source, n, k + 1);
      } else {
        var j: nat :| j <= k && BoundaryAt(source, n, j);
      }
    }
  }

  datatype BoundaryMap = BoundaryMap(byteOffsets: seq<nat>)

  datatype OffsetError = SplitsSurrogatePair | ExceedsLength

  method NewBoundaryMap(source: string) returns (map16: BoundaryMap)
    ensures Maps(source, |source|, map16.byteOffsets)
  {
    hide Maps;
    var offsets: seq<nat> := [0];
    EmptyMap(source);
    var start: nat := 0;
    for k := 0 to |source|
      invariant Maps(source, k, offsets) && start == Bytes(source[..k])
    {
      var c := source[k];
      MapExtended(source, k, offsets);
      OneMore(source, k);
      ghost var was := offsets;
      if Utf16Length(c) == 2 {
        offsets := offsets + [NON_BOUNDARY];
      }
      offsets := offsets + [start + Utf8Length(c)];
      assert offsets == was + (if Utf16Length(c) == 2 then [NON_BOUNDARY] else []) + [start + Utf8Length(c)];
      start := start + Utf8Length(c);
    }
    map16 := BoundaryMap(offsets);
  }

  lemma EmptyMap(source: string)
    ensures Maps(source, 0, [0])
  {
    assert BoundaryAt(source, 0, 0);
  }

  function ByteOffset(map16: BoundaryMap, n: nat): Result<nat, OffsetError> {
    if n >= |map16.byteOffsets| then Err(ExceedsLength)
    else if map16.byteOffsets[n] == NON_BOUNDARY then Err(SplitsSurrogatePair)
    else Ok(map16.byteOffsets[n])
  }

  /** An offset is answered exactly when some scalar prefix has that many code units, with its length in bytes; the two
      errors are the offsets inside a pair and beyond the end. A source is shorter than the largest machine word. */
  lemma ByteOffsetExact(source: string, map16: BoundaryMap, n: nat)
    requires Maps(source, |source|, map16.byteOffsets) && Bytes(source) < NON_BOUNDARY
    ensures ByteOffset(map16, n).Ok? <==> IsBoundary(source, n)
    ensures forall k: nat :: BoundaryAt(source, n, k) ==> ByteOffset(map16, n) == Ok(Bytes(source[..k]))
    ensures ByteOffset(map16, n) == Err(ExceedsLength) <==> n > Units(source)
    ensures ByteOffset(map16, n) == Err(SplitsSurrogatePair) <==> n <= Units(source) && !IsBoundary(source, n)
  {
    assert source[..|source|] == source;
    forall k: nat | BoundaryAt(source, n, k)
      ensures ByteOffset(map16, n) == Ok(Bytes(source[..k])) && n <= Units(source)
    {
      if k < |source| {
        LengthsIncrease(source, k, |source|);
      }
    }
    if ByteOffset(map16, n).Ok? {
      var k: nat :| k <= |source| && BoundaryAt(source, n, k);
    }
  }

  /** The refused offsets up to the end are those just after the first half of a pair. */
  lemma SplitsAreInsidePairs(source: string, n: nat)
    requires n <= Units(source)
    ensures !IsBoundary(source, n) <==>
            exists k: nat :: k < |source| && Utf16Length(source[k]) == 2 && n == Units(source[..k]) + 1
  {
    assert source[..|source|] == source;
    if k: nat :| k < |source| && Utf16Length(source[k]) == 2 && n == Units(source[..k]) + 1 {
      if j: nat :| BoundaryAt(source, n, j) {
        OneMore(source, k);
        if j <= k {
          if j < k {
            LengthsIncrease(source, j, k);
          }
        } else if j > k + 1 {
          LengthsIncrease(source, k + 1, j);
        }
      }
    }
    if !IsBoundary(source, n) {
      var k := LastBelow(source, n, |source|);
      OneMore(source, k);
    }
  }

  lemma {:induction false} LastBelow(source: string, n: nat, m: nat) returns (k: nat)
    requires m <= |source| && n <= Units(source[..m]) && !IsBoundary(source, n)
    ensures k < |source| && Units(source[..k]) < n < Units(source[..k + 1])
    decreases m
  {
    assert BoundaryAt(source, 0, 0);
    assert !BoundaryAt(source, n, m);
    if Units(source[..m - 1]) < n {
      k := m - 1;
      assert source[..k + 1] == source[..m];
    } else {
      k := LastBelow(source, n, m - 1);
    }
  }

  /** Answers increase strictly with the offset. */
  lemma ByteOffsetsIncrease(source: string, map16: BoundaryMap, n: nat, m: nat)
    requires Maps(source, |source|, map16.byteOffsets) && Bytes(source) < NON_BOUNDARY && n < m
    requires ByteOffset(map16, n).Ok? && ByteOffset(map16, m).Ok?
    ensures ByteOffset(map16, n).value < ByteOffset(map16, m).value
  {
    ByteOffsetExact(source, map16, n);
    ByteOffsetExact(source, map16, m);
    var j: nat :| BoundaryAt(source, n, j);
    var k: nat :| BoundaryAt(source, m, k);
    if j < k {
      LengthsIncrease(source, j, k);
    } else if k < j {
      LengthsIncrease(source, k, j);
    }
  }

  // ----- the resolver

  datatype Comparable = Comparable(role: nat, start: nat, end: nat)

  datatype Occurrence = Occurrence(firstIndex: nat, count: nat)

  /** The one position of the candidate. */
  ghost predicate OnlyAt(candidates: seq<Comparable>, c: Comparable, i: nat) {
    && i < |candidates| && candidates[i] == c
    && forall j :: 0 <= j < |candidates| && candidates[j] == c ==> j == i
  }

  ghost predicate Counts(candidates: seq<Comparable>, index: map<Comparable, Occurrence>) {
    && (forall c :: c in index <==> c in candidates)
    && (forall c :: c in index ==>
                      && index[c].count == multiset(candidates)[c] && index[c].firstIndex < |candidates|
                      && candidates[index[c].firstIndex] == c)
  }

  method IndexCandidates(candidates: seq<Comparable>) returns (index: map<Comparable, Occurrence>)
    ensures Counts(candidates, index)
  {
    index := map[];
    for n := 0 to |candidates|
      invariant Counts(candidates[..n], index)
    {
      var c := candidates[n];
      assert candidates[..n + 1] == candidates[..n] + [c];
      index := index[c := if c in index then index[c].(count := index[c].count + 1) else Occurrence(n, 1)];
    }
    assert candidates[..|candidates|] == candidates;
  }

  function UniqueIndex(index: map<Comparable, Occurrence>, c: Comparable): Option<nat> {
    if c in index && index[c].count == 1 then Some(index[c].firstIndex) else None
  }

  lemma CountAround(s: seq<Comparable>, f: nat)
    requires f < |s|
    ensures multiset(s)[s[f]] == multiset(s[..f])[s[f]] + 1 + multiset(s[f + 1..])[s[f]]
  {
    assert s == s[..f] + [s[f]] + s[f + 1..];
  }

  lemma CountOne(s: seq<Comparable>, f: nat)
    requires f < |s|
    ensures multiset(s)[s[f]] == 1 <==> OnlyAt(s, s[f], f)
  {
    CountAround(s, f);
    var before, after := s[..f], s[f + 1..];
    assert multiset(before)[s[f]] == 0 <==> s[f] !in before;
    assert multiset(after)[s[f]] == 0 <==> s[f] !in after;
    forall j | 0 <= j < |s| && j != f ensures s[j] == s[f] ==> s[f] in before || s[f] in after {
      assert s[j] in before || s[j] in after by {
        assert if j < f then before[j] == s[j] else after[j - f - 1] == s[j];
      }
    }
    assert forall j :: 0 <= j < |after| ==> after[j] == s[f + 1 + j];
  }

  /** The hash index answers with a position exactly when a linear scan finds the candidate there and nowhere else. */
  lemma UniqueIndexIsScan(candidates: seq<Comparable>, index: map<Comparable, Occurrence>, c: Comparable, i: nat)
    requires Counts(candidates, index)
    ensures UniqueIndex(index, c) == Some(i) <==> OnlyAt(candidates, c, i)
  {
    if c in index {
      CountOne(candidates, index[c].firstIndex);
      if i < |candidates| && candidates[i] == c {
        CountOne(candidates, i);
      }
    }
  }

  datatype ResolveError = BadRange | BadStart(OffsetError) | BadEnd(OffsetError) | UnsupportedKind | BadTrivia

  datatype OracleNode = OracleNode(kind: string, start: nat, end: nat)

  /** What the resolver of one source is built from; `skipTrivia` moves a byte start past leading comments. */
  datatype Resolver = Resolver(boundaries: BoundaryMap, index: map<Comparable, Occurrence>, role: string -> Option<nat>,
                               isDeclaration: nat -> bool, skipTrivia: (nat, nat) -> Option<nat>)

  function Normalize(z: Resolver, node: OracleNode): Result<Comparable, ResolveError> {
    if node.start > node.end then Err(BadRange)
    else match ByteOffset(z.boundaries, node.start)
         case Err(e) => Err(BadStart(e))
         case Ok(start) =>
           match ByteOffset(z.boundaries, node.end)
           case Err(e) => Err(BadEnd(e))
           case Ok(end) => if z.role(node.kind).None? then Err(UnsupportedKind)
                           else Ok(Comparable(z.role(node.kind).value, start, end))
  }

  function ResolveWithIndex(z: Resolver, node: OracleNode): Result<Option<(Comparable, nat)>, ResolveError> {
    match Normalize(z, node)
    case Err(e) => Err(e)
    case Ok(direct) =>
      match UniqueIndex(z.index, direct)
      case Some(i) => Ok(Some((direct, i)))
      case None =>
        if !z.isDeclaration(direct.role) then Ok(None)
        else match z.skipTrivia(direct.start, direct.end)
             case None => Err(BadTrivia)
             case Some(start) =>
               var adjusted := direct.(start := start);
               match UniqueIndex(z.index, adjusted)
               case Some(i) => Ok(Some((adjusted, i)))
               case None => Ok(None)
  }

  ghost predicate NoSingle(candidates: seq<Comparable>, c: Comparable) {
    forall x: nat :: !OnlyAt(candidates, c, x)
  }

  /** The candidate has the node's own byte range; or the node is a declaration whose own range matches no single
      candidate, and the candidate starts after its leading comments. */
  ghost predicate RangeOf(source: string, candidates: seq<Comparable>, z: Resolver, node: OracleNode, c: Comparable,
                          j: nat, k: nat)
  {
    && BoundaryAt(source, node.start, j) && BoundaryAt(source, node.end, k) && c.end == Bytes(source[..k])
    && (c.start == Bytes(source[..j]) ||
        (z.isDeclaration(c.role) && z.skipTrivia(Bytes(source[..j]), c.end) == Some(c.start) &&
         NoSingle(candidates, Comparable(c.role, Bytes(source[..j]), c.end))))
  }

  /** A node is resolved to a candidate exactly when that is the only candidate of its role and range. */
  lemma ResolvedIsUnique(source: string, candidates: seq<Comparable>, z: Resolver, node: OracleNode, c: Comparable,
                         i: nat)
    requires Maps(source, |source|, z.boundaries.byteOffsets) && Bytes(source) < NON_BOUNDARY
    requires Counts(candidates, z.index)
    ensures ResolveWithIndex(z, node) == Ok(Some((c, i))) <==>
            && node.start <= node.end && OnlyAt(candidates, c, i) && z.role(node.kind) == Some(c.role)
            && exists j: nat, k: nat :: RangeOf(source, candidates, z, node, c, j, k)
  {
    hide Maps, Counts, ByteOffset, OnlyAt, UniqueIndex, Bytes, Units, BoundaryAt, RangeOf;
    if ResolveWithIndex(z, node) == Ok(Some((c, i))) {
      ResolvedHasRange(source, candidates, z, node, c, i);
    }
    if j: nat, k: nat :| RangeOf(source, candidates, z, node, c, j, k) {
      if node.start <= node.end && OnlyAt(candidates, c, i) && z.role(node.kind) == Some(c.role) {
        RangeIsResolved(source, candidates, z, node, c, i, j, k);
      }
    }
  }

  lemma ResolvedHasRange(source: string, candidates: seq<Comparable>, z: Resolver, node: OracleNode, c: Comparable,
                         i: nat)
    requires Maps(source, |source|, z.boundaries.byteOffsets) && Bytes(source) < NON_BOUNDARY
    requires Counts(candidates, z.index) && ResolveWithIndex(z, node) == Ok(Some((c, i)))
    ensures node.start <= node.end && OnlyAt(candidates, c, i) && z.role(node.kind) == Some(c.role)
    ensures exists j: nat, k: nat :: RangeOf(source, candidates, z, node, c, j, k)
  {
    hide Maps, BoundaryAt, Counts, ByteOffset, OnlyAt, UniqueIndex, Bytes, Units;
    var j := BoundaryOf(source, z.boundaries, node.start);
    var k := BoundaryOf(source, z.boundaries, node.end);
    UniqueIndexIsScan(candidates, z.index, c, i);
    NothingIndexed(candidates, z.index, Normalize(z, node).value);
    assert RangeOf(source, candidates, z, node, c, j, k);
  }

  lemma RangeIsResolved(source: string, candidates: seq<Comparable>, z: Resolver, node: OracleNode, c: Comparable,
                        i: nat, j: nat, k: nat)
    requires Maps(source, |source|, z.boundaries.byteOffsets) && Bytes(source) < NON_BOUNDARY
    requires Counts(candidates, z.index) && RangeOf(source, candidates, z, node, c, j, k)
    requires node.start <= node.end && OnlyAt(candidates, c, i) && z.role(node.kind) == Some(c.role)
    ensures ResolveWithIndex(z, node) == Ok(Some((c, i)))
  {
    hide Maps, Counts, ByteOffset, OnlyAt, UniqueIndex, Bytes, Units;
    ByteOffsetExact(source, z.boundaries, node.start);
    ByteOffsetExact(source, z.boundaries, node.end);
    var direct := Comparable(c.role, Bytes(source[..j]), c.end);
    assert Normalize(z, node) == Ok(direct);
    UniqueIndexIsScan(candidates, z.index, c, i);
    NothingIndexed(candidates, z.index, direct);
  }

  lemma NothingIndexed(candidates: seq<Comparable>, index: map<Comparable, Occurrence>, c: Comparable)
    requires Counts(candidates, index)
    ensures UniqueIndex(index, c).None? <==> NoSingle(candidates, c)
  {
    hide Counts, UniqueIndex, OnlyAt;
    forall x: nat ensures UniqueIndex(index, c) == Some(x) <==> OnlyAt(candidates, c, x) {
      UniqueIndexIsScan(candidates, index, c, x);
    }
    if UniqueIndex(index, c).Some? {
      assert OnlyAt(candidates, c, UniqueIndex(index, c).value);
    }
  }

  lemma BoundaryOf(source: string, map16: BoundaryMap, n: nat) returns (k: nat)
    requires Maps(source, |source|, map16.byteOffsets) && Bytes(source) < NON_BOUNDARY && ByteOffset(map16, n).Ok?
    ensures k <= |source| && BoundaryAt(source, n, k) && ByteOffset(map16, n) == Ok(Bytes(source[..k]))
  {
    hide Maps, ByteOffset;
    ByteOffsetExact(source, map16, n);
    k :| BoundaryAt(source, n, k);
  }
}
