/** Workflow filter globs: the memoised matcher against the language of a pattern, and last-match-wins filters. */
module Globs {
  import opened Wrappers

  // ----- the language of a pattern

  datatype Token = AnyRun | SegmentRun | OneChar | Literal(c: char)

  /** The first token of a pattern and how many characters it takes: `**` and a slash right after it are one token. */
  function FirstToken(pattern: string): (r: (Token, nat))
    requires pattern != []
    ensures 1 <= r.1 <= |pattern|
  {
    if pattern[0] == '*' then
      if |pattern| > 1 && pattern[1] == '*' then
        if |pattern| > 2 && pattern[2] == '/' then (AnyRun, 3) else (AnyRun, 2)
      else (SegmentRun, 1)
    else if pattern[0] == '?' then (OneChar, 1)
    else (Literal(pattern[0]), 1)
  }

  function Tokens(pattern: string): seq<Token> {
    if pattern == [] then []
    else
      var (token, width) := FirstToken(pattern);
      [token] + Tokens(pattern[width..])
  }

  predicate TokenAccepts(token: Token, part: string) {
    match token
    case AnyRun => true
    case SegmentRun => '/' !in part
    case OneChar => |part| == 1 && part[0] != '/'
    case Literal(c) => part == [c]
  }

  function Concat(parts: seq<string>): string {
    if parts == [] then [] else parts[0] + Concat(parts[1..])
  }

  /** The value falls into consecutive parts, one for each token. */
  ghost predicate SplitsInto(tokens: seq<Token>, value: string, parts: seq<string>) {
    && |parts| == |tokens| && Concat(parts) == value
    && forall k :: 0 <= k < |tokens| ==> TokenAccepts(tokens[k], parts[k])
  }

  ghost predicate Accepts(tokens: seq<Token>, value: string) {
    exists parts :: SplitsInto(tokens, value, parts)
  }

  ghost predicate Language(pattern: string, value: string) {
    Accepts(Tokens(pattern), value)
  }

  // ----- one token at a time

  predicate IsRun(token: Token) {
    token == AnyRun || token == SegmentRun
  }

  predicate RunTakes(token: Token, c: char) {
    token == AnyRun || (token == SegmentRun && c != '/')
  }

  lemma SplitCons(token: Token, rest: seq<Token>, value: string, part: string, tail: string)
    requires value == part + tail && TokenAccepts(token, part) && Accepts(rest, tail)
    ensures Accepts([token] + rest, value)
  {
    var parts :| SplitsInto(rest, tail, parts);
    assert ([part] + parts)[1..] == parts;
    assert SplitsInto([token] + rest, value, [part] + parts);
  }

  lemma SplitFirst(token: Token, rest: seq<Token>, value: string) returns (part: string, tail: string)
    requires Accepts([token] + rest, value)
    ensures value == part + tail && TokenAccepts(token, part) && Accepts(rest, tail)
  {
    var parts :| SplitsInto([token] + rest, value, parts);
    part, tail := parts[0], Concat(parts[1..]);
    assert TokenAccepts(([token] + rest)[0], parts[0]);
    forall k | 0 <= k < |rest| ensures TokenAccepts(rest[k], parts[1..][k]) {
      assert TokenAccepts(([token] + rest)[k + 1], parts[k + 1]);
    }
    assert SplitsInto(rest, tail, parts[1..]);
  }

  lemma NoTokens(value: string)
    ensures Accepts([], value) <==> value == []
  {
    if value == [] {
      assert SplitsInto([], [], []);
    }
  }

  /** A run stops here, or takes one more character and goes on. */
  lemma RunStep(token: Token, rest: seq<Token>, value: string)
    requires IsRun(token)
    ensures Accepts([token] + rest, value) <==>
            Accepts(rest, value) || (value != [] && RunTakes(token, value[0]) && Accepts([token] + rest, value[1..]))
  {
    if Accepts([token] + rest, value) {
      var part, tail := SplitFirst(token, rest, value);
      if part != [] {
        assert value[0] == part[0] && value[1..] == part[1..] + tail;
        SplitCons(token, rest, value[1..], part[1..], tail);
      } else {
        assert tail == value;
      }
    }
    if Accepts(rest, value) {
      SplitCons(token, rest, value, [], value);
    }
    if value != [] && RunTakes(token, value[0]) && Accepts([token] + rest, value[1..]) {
      var part, tail := SplitFirst(token, rest, value[1..]);
      assert value == ([value[0]] + part) + tail;
      SplitCons(token, rest, value, [value[0]] + part, tail);
    }
  }

  predicate TakesOne(token: Token, c: char) {
    match token
    case OneChar => c != '/'
    case Literal(d) => c == d
    case _ => false
  }

  lemma SingleStep(token: Token, rest: seq<Token>, value: string)
    requires !IsRun(token)
    ensures Accepts([token] + rest, value) <==> value != [] && TakesOne(token, value[0]) && Accepts(rest, value[1..])
  {
    if Accepts([token] + rest, value) {
      var part, tail := SplitFirst(token, rest, value);
      assert value[0] == part[0] && tail == value[1..];
    }
    if value != [] && TakesOne(token, value[0]) && Accepts(rest, value[1..]) {
      assert value == [value[0]] + value[1..];
      SplitCons(token, rest, value, [value[0]], value[1..]);
    }
  }

  // ----- the memoised matcher

  ghost predicate LanguageAt(pattern: string, value: string, i: nat, j: nat)
    requires i <= |pattern| && j <= |value|
  {
    Language(pattern[i..], value[j..])
  }

  /** Every filled cell holds the right answer. */
  ghost predicate MemoSound(pattern: string, value: string, memo: array2<Option<bool>>)
    reads memo
  {
    && memo.Length0 == |pattern| + 1 && memo.Length1 == |value| + 1
    && forall i: nat, j: nat :: i <= |pattern| && j <= |value| && memo[i, j].Some? ==>
                                  (memo[i, j].value <==> LanguageAt(pattern, value, i, j))
  }

  lemma Unfold(pattern: string, value: string, i: nat, j: nat)
    requires i <= |pattern| && j <= |value|
    ensures i == |pattern| ==> (LanguageAt(pattern, value, i, j) <==> j == |value|)
    ensures i < |pattern| ==>
              var (token, width) := FirstToken(pattern[i..]);
              if IsRun(token) then
                LanguageAt(pattern, value, i, j) <==>
                LanguageAt(pattern, value, i + width, j) ||
                (j < |value| && RunTakes(token, value[j]) && LanguageAt(pattern, value, i, j + 1))
              else
                LanguageAt(pattern, value, i, j) <==>
                j < |value| && TakesOne(token, value[j]) && LanguageAt(pattern, value, i + width, j + 1)
  {
    if i == |pattern| {
      NoTokens(value[j..]);
    } else {
      var p, v := pattern[i..], value[j..];
      var (token, width) := FirstToken(p);
      assert p[width..] == pattern[i + width..];
      if j < |value| {
        assert v[0] == value[j] && v[1..] == value[j + 1..];
      }
      if IsRun(token) {
        RunStep(token, Tokens(p[width..]), v);
      } else {
        SingleStep(token, Tokens(p[width..]), v);
      }
    }
  }

  method GlobMatchesAt(pattern: string, value: string, i: nat, j: nat, memo: array2<Option<bool>>)
    returns (result: bool)
    requires i <= |pattern| && j <= |value| && MemoSound(pattern, value, memo)
    modifies memo
    ensures MemoSound(pattern, value, memo) && (result <==> LanguageAt(pattern, value, i, j))
    decreases |pattern| - i, |value| - j
  {
    hide LanguageAt;
    if memo[i, j].Some? {
      return memo[i, j].value;
    }
    Unfold(pattern, value, i, j);
    if i == |pattern| {
      result := j == |value|;
    } else if pattern[i] == '*' {
      var isDouble := i + 1 < |pattern| && pattern[i + 1] == '*';
      var followedBySlash := isDouble && i + 2 < |pattern| && pattern[i + 2] == '/';
      var next := i + if followedBySlash then 3 else if isDouble then 2 else 1;
      assert FirstToken(pattern[i..]) == (if isDouble then AnyRun else SegmentRun, next - i);
      result := GlobMatchesAt(pattern, value, next, j, memo);
      if !result && j < |value| && (isDouble || value[j] != '/') {
        result := GlobMatchesAt(pattern, value, i, j + 1, memo);
      }
    } else if j < |value| && ((pattern[i] == '?' && value[j] != '/') || pattern[i] == value[j]) {
      result := GlobMatchesAt(pattern, value, i + 1, j + 1, memo);
    } else {
      result := false;
    }
    memo[i, j] := Some(result);
  }

  /** The matcher decides the language of the pattern. */
  method GlobMatches(pattern: string, value: string) returns (result: bool)
    ensures result <==> Language(pattern, value)
  {
    var memo := new Option<bool>[|pattern| + 1, |value| + 1]((i, j) => None);
    result := GlobMatchesAt(pattern, value, 0, 0, memo);
    assert pattern[0..] == pattern && value[0..] == value;
  }

  // ----- ordered filters

  function Negative(pattern: string): bool {
    pattern != [] && pattern[0] == '!'
  }

  function Body(pattern: string): string {
    if Negative(pattern) then pattern[1..] else pattern
  }

  /** The pattern without one leading exclamation mark. */
  ghost function Stripped(pattern: string): string {
    if "!" <= pattern then pattern[|"!"|..] else pattern
  }

  lemma BodyExactly(pattern: string)
    ensures Negative(pattern) <==> "!" <= pattern
    ensures Body(pattern) == Stripped(pattern)
  {
  }

  /** The last pattern that matches. */
  ghost predicate Decides(patterns: seq<string>, path: string, k: nat) {
    && k < |patterns| && Language(Stripped(patterns[k]), path)
    && forall j :: k < j < |patterns| ==> !Language(Stripped(patterns[j]), path)
  }

  ghost predicate Selected(patterns: seq<string>, path: string) {
    exists k: nat :: Decides(patterns, path, k) && !("!" <= patterns[k])
  }

  lemma DecidesOnce(patterns: seq<string>, path: string, j: nat, k: nat)
    requires Decides(patterns, path, j) && Decides(patterns, path, k)
    ensures j == k
  {
  }

  lemma SelectedSnoc(patterns: seq<string>, pattern: string, path: string)
    ensures Selected(patterns + [pattern], path) <==>
            if Language(Stripped(pattern), path) then !("!" <= pattern) else Selected(patterns, path)
  {
    hide Language, Stripped;
    var more := patterns + [pattern];
    if Language(Stripped(pattern), path) {
      assert Decides(more, path, |patterns|);
      if Selected(more, path) {
        var k: nat :| Decides(more, path, k) && !("!" <= more[k]);
        DecidesOnce(more, path, k, |patterns|);
      }
    } else {
      if Selected(patterns, path) {
        var k: nat :| Decides(patterns, path, k) && !("!" <= patterns[k]);
        assert Decides(more, path, k);
      }
      if Selected(more, path) {
        var k: nat :| Decides(more, path, k) && !("!" <= more[k]);
        assert forall j :: 0 <= j < |patterns| ==> more[j] == patterns[j];
        assert Decides(patterns, path, k);
      }
    }
  }

  /** The polarity of the last matching pattern; nothing matching selects nothing. */
  method OrderedPathSelected(patterns: seq<string>, path: string) returns (selected: bool)
    ensures selected <==> Selected(patterns, path)
  {
    hide Language, Selected, Body, Negative, Stripped;
    selected := false;
    NothingSelected(path);
    for n := 0 to |patterns|
      invariant selected <==> Selected(patterns[..n], path)
    {
      SelectedSnoc(patterns[..n], patterns[n], path);
      BodyExactly(patterns[n]);
      assert patterns[..n + 1] == patterns[..n] + [patterns[n]];
      var matched := GlobMatches(Body(patterns[n]), path);
      if matched {
        selected := !Negative(patterns[n]);
      }
    }
    assert patterns[..|patterns|] == patterns;
  }

  lemma NothingSelected(path: string)
    ensures !Selected([], path)
  {
  }

  // ----- the two filters

  datatype FilterDecision = Included | Excluded | Unknown

  predicate SupportedPattern(pattern: string) {
    pattern != [] && forall c :: c in pattern ==> c !in {'[', ']', '+', '{', '}', '\\'}
  }

  predicate Supported(includes: seq<string>, ignores: seq<string>) {
    && (forall p :: p in ignores ==> !Negative(p))
    && (forall p :: p in includes + ignores ==> SupportedPattern(Body(p)))
  }

  /** Empty, or holding a character the matcher does not understand. */
  ghost predicate Unreadable(pattern: string) {
    pattern == "" || exists c :: c in pattern && c in "[]+{}\\"
  }

  /** An ignore is negated, or a pattern that may carry one leading exclamation mark is unreadable behind it. */
  ghost predicate Doubtful(includes: seq<string>, ignores: seq<string>) {
    || (exists p :: p in ignores && "!" <= p)
    || (exists p :: p in includes && Unreadable(Stripped(p)))
    || (exists p :: p in ignores && Unreadable(Stripped(p)))
  }

  lemma UnreadableExactly(pattern: string)
    ensures SupportedPattern(pattern) <==> !Unreadable(pattern)
  {
    assert "[]+{}\\" == ['[', ']', '+', '{', '}', '\\'];
  }

  lemma DoubtfulExactly(includes: seq<string>, ignores: seq<string>)
    ensures Supported(includes, ignores) <==> !Doubtful(includes, ignores)
  {
    hide SupportedPattern, Unreadable, Body, Negative, Stripped;
    forall p ensures (Negative(p) <==> "!" <= p) && (SupportedPattern(Body(p)) <==> !Unreadable(Stripped(p))) {
      BodyExactly(p);
      UnreadableExactly(Body(p));
    }
  }

  ghost predicate Ignored(ignores: seq<string>, value: string) {
    exists p :: p in ignores && Language(p, value)
  }

  ghost function RefDecision(includes: seq<string>, ignores: seq<string>, value: string): FilterDecision {
    if Doubtful(includes, ignores) then Unknown
    else if includes != [] && !Selected(includes, value) then Excluded
    else if Ignored(ignores, value) then Excluded
    else Included
  }

  ghost function PathDecision(includes: seq<string>, ignores: seq<string>, paths: seq<string>): FilterDecision {
    if paths == [] || Doubtful(includes, ignores) then Unknown
    else if includes != [] && forall path :: path in paths ==> !Selected(includes, path) then Excluded
    else if ignores != [] && forall path :: path in paths ==> Ignored(ignores, path) then Excluded
    else Included
  }

  method AnyIgnored(ignores: seq<string>, value: string) returns (ignored: bool)
    ensures ignored <==> Ignored(ignores, value)
  {
    hide Language;
    for n := 0 to |ignores|
      invariant forall p :: p in ignores[..n] ==> !Language(p, value)
    {
      ignored := GlobMatches(ignores[n], value);
      if ignored {
        return;
      }
    }
    assert ignores[..|ignores|] == ignores;
    return false;
  }

  method EvaluateRefFilters(includes: seq<string>, ignores: seq<string>, value: string)
    returns (decision: FilterDecision)
    ensures decision == RefDecision(includes, ignores, value)
    ensures decision == Unknown <==> Doubtful(includes, ignores)
    ensures decision == Excluded <==>
            && !Doubtful(includes, ignores)
            && ((includes != [] && !Selected(includes, value)) || exists p :: p in ignores && Language(p, value))
  {
    DoubtfulExactly(includes, ignores);
    hide Selected, Supported, Doubtful, Language;
    if !Supported(includes, ignores) {
      return Unknown;
    }
    if includes != [] {
      var selected := OrderedPathSelected(includes, value);
      if !selected {
        return Excluded;
      }
    }
    var ignored := AnyIgnored(ignores, value);
    return if ignored then Excluded else Included;
  }

  method EvaluatePathFilters(includes: seq<string>, ignores: seq<string>, paths: seq<string>)
    returns (decision: FilterDecision)
    ensures decision == PathDecision(includes, ignores, paths)
    ensures decision == Unknown <==> paths == [] || Doubtful(includes, ignores)
    ensures decision == Excluded <==>
            && paths != [] && !Doubtful(includes, ignores)
            && ((includes != [] && forall path :: path in paths ==> !Selected(includes, path)) ||
                (ignores != [] && forall path :: path in paths ==> exists p :: p in ignores && Language(p, path)))
  {
    DoubtfulExactly(includes, ignores);
    hide Selected, Supported, Doubtful, Language;
    if paths == [] || !Supported(includes, ignores) {
      return Unknown;
    }
    var anySelected, allIgnored := false, true;
    for n := 0 to |paths|
      invariant anySelected <==> exists path :: path in paths[..n] && Selected(includes, path)
      invariant allIgnored <==> forall path :: path in paths[..n] ==> Ignored(ignores, path)
    {
      assert paths[..n + 1] == paths[..n] + [paths[n]];
      var selected := OrderedPathSelected(includes, paths[n]);
      var ignored := AnyIgnored(ignores, paths[n]);
      anySelected := anySelected || selected;
      allIgnored := allIgnored && ignored;
    }
    assert paths[..|paths|] == paths;
    if includes != [] && !anySelected {
      return Excluded;
    }
    return if ignores != [] && allIgnored then Excluded else Included;
  }

  /** For a single changed path the two filters agree. */
  lemma OnePathIsARef(includes: seq<string>, ignores: seq<string>, path: string)
    ensures PathDecision(includes, ignores, [path]) == RefDecision(includes, ignores, path)
  {
    hide Selected, Language, Doubtful;
    assert path in [path];
  }

  /** A change of more paths never stops a workflow that fewer paths would start. */
  lemma MorePathsStayIncluded(includes: seq<string>, ignores: seq<string>, paths: seq<string>, more: seq<string>)
    requires PathDecision(includes, ignores, paths).Included? && forall path :: path in paths ==> path in more
    ensures PathDecision(includes, ignores, more).Included?
  {
    hide Selected, Ignored, Doubtful;
    assert paths[0] in more;
  }
}
